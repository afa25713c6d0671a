/**
 Cutting a sequence at a separator and joining it again.

 The parts of a sequence joined by the separator are the sequence, and parts that do not contain the separator are
 the parts of what they join to, so the two are inverses. Appending to a sequence only extends its last part and
 adds parts after it, which is why a stream may be cut into chunks anywhere. Paths, pointers and lines of output
 are all split this way.
 */
module Splitting {

  /** The parts between the separators; what follows the last one is the last part. */
  function Split<T(==)>(s: seq<T>, separator: T): (parts: seq<seq<T>>)
    ensures parts != []
  {
    if s == [] then [[]]
    else
      var rest := Split(s[1..], separator);
      if s[0] == separator then [[]] + rest else [[s[0]] + rest[0]] + rest[1..]
  }

  function Join<T>(parts: seq<seq<T>>, separator: T): seq<T>
    requires parts != []
  {
    if |parts| == 1 then parts[0] else parts[0] + [separator] + Join(parts[1..], separator)
  }

  function Last<T>(s: seq<T>): T
    requires s != []
  {
    s[|s| - 1]
  }

  function Front<T>(s: seq<T>): seq<T>
    requires s != []
  {
    s[..|s| - 1]
  }

  lemma SplitCons<T>(s: seq<T>, separator: T)
    requires s != []
    ensures var rest := Split(s[1..], separator);
      Split(s, separator) == if s[0] == separator then [[]] + rest else [[s[0]] + rest[0]] + rest[1..]
  {
  }

  // ----- appending

  ghost predicate Appends<T>(s: seq<T>, more: seq<T>, separator: T) {
    Split(s + more, separator) == Front(Split(s, separator)) + Split(Last(Split(s, separator)) + more, separator)
  }

  /** Appending only touches the last part. */
  lemma {:induction false} SplitAppend<T>(s: seq<T>, more: seq<T>, separator: T)
    ensures Appends(s, more, separator)
  {
    hide Split, Appends;
    if s == [] {
      EmptyAppends(more, separator);
    } else {
      SplitAppend(s[1..], more, separator);
      if s[0] == separator {
        SeparatorAppends(s, more, separator);
      } else if |Split(s[1..], separator)| > 1 {
        LongerAppends(s, more, separator);
      } else {
        SingleAppends(s, more, separator);
      }
    }
  }

  lemma EmptyAppends<T>(more: seq<T>, separator: T)
    ensures Appends([], more, separator)
  {
    assert [] + more == more;
  }

  lemma ConsAppend<T>(s: seq<T>, more: seq<T>)
    requires s != []
    ensures (s + more)[0] == s[0] && (s + more)[1..] == s[1..] + more
  {
  }

  lemma SeparatorAppends<T>(s: seq<T>, more: seq<T>, separator: T)
    requires s != [] && s[0] == separator && Appends(s[1..], more, separator)
    ensures Appends(s, more, separator)
  {
    hide Split;
    ConsAppend(s, more);
    SplitCons(s, separator);
    SplitCons(s + more, separator);
    assert Front(Split(s, separator)) == [[]] + Front(Split(s[1..], separator));
  }

  lemma LongerAppends<T>(s: seq<T>, more: seq<T>, separator: T)
    requires s != [] && s[0] != separator && Appends(s[1..], more, separator) && |Split(s[1..], separator)| > 1
    ensures Appends(s, more, separator)
  {
    hide Split;
    ConsAppend(s, more);
    SplitCons(s, separator);
    SplitCons(s + more, separator);
  }

  lemma SingleAppends<T>(s: seq<T>, more: seq<T>, separator: T)
    requires s != [] && s[0] != separator && Appends(s[1..], more, separator) && |Split(s[1..], separator)| == 1
    ensures Appends(s, more, separator)
  {
    hide Split;
    ConsAppend(s, more);
    SplitCons(s, separator);
    SplitCons(s + more, separator);
    var part := Split(s[1..], separator)[0];
    SingleAppend(s[0], part, more, separator);
    assert Split(s[1..], separator) == [part] && Front([part]) == [];
    assert [[s[0]] + part] + [part][1..] == [[s[0]] + part];
    var tail := Split(part + more, separator);
    assert [] + tail == tail;
    assert [] + Split([s[0]] + part + more, separator) == Split([s[0]] + part + more, separator);
  }

  lemma SingleAppend<T>(c: T, part: seq<T>, more: seq<T>, separator: T)
    requires c != separator
    ensures var after := Split(part + more, separator);
      Split([c] + part + more, separator) == [[c] + after[0]] + after[1..]
    ensures Front([[c] + part]) == [] && Last([[c] + part]) == [c] + part
  {
    hide Split;
    var joined := [c] + part + more;
    SplitCons(joined, separator);
    assert joined[1..] == part + more;
  }

  // ----- parts and separators

  lemma {:induction false} SplitWithout<T>(s: seq<T>, separator: T)
    requires separator !in s
    ensures Split(s, separator) == [s]
  {
    if s == [] {
    } else {
      SplitWithout(s[1..], separator);
      assert [s[0]] + s[1..] == s;
    }
  }

  lemma {:induction false} PartsHaveNone<T>(s: seq<T>, separator: T)
    ensures forall i :: 0 <= i < |Split(s, separator)| ==> separator !in Split(s, separator)[i]
  {
    if s == [] {
    } else {
      PartsHaveNone(s[1..], separator);
    }
  }

  /** A part without a separator starts the first part of whatever follows it. */
  lemma {:induction false} FirstExtends<T>(part: seq<T>, more: seq<T>, separator: T)
    requires separator !in part
    ensures part <= Split(part + more, separator)[0]
  {
    if part == [] {
    } else {
      FirstExtends(part[1..], more, separator);
      assert (part + more)[1..] == part[1..] + more;
    }
  }

  lemma {:induction false} OneSeparator<T>(part: seq<T>, separator: T)
    requires separator !in part
    ensures Split(part + [separator], separator) == [part, []]
  {
    if part == [] {
      assert part + [separator] == [separator] && [separator][1..] == [];
    } else {
      OneSeparator(part[1..], separator);
      assert (part + [separator])[1..] == part[1..] + [separator];
      assert [part[0]] + part[1..] == part;
    }
  }

  // ----- joining

  lemma {:induction false} JoinSplit<T>(s: seq<T>, separator: T)
    ensures Join(Split(s, separator), separator) == s
  {
    if s == [] {
    } else {
      var rest := Split(s[1..], separator);
      JoinSplit(s[1..], separator);
      if s[0] == separator {
        assert ([[]] + rest)[1..] == rest;
        assert [] + [separator] + Join(rest, separator) == s;
      } else {
        var parts := Split(s, separator);
        assert [s[0]] + s[1..] == s;
      }
    }
  }

  lemma {:induction false} SplitJoin<T>(parts: seq<seq<T>>, separator: T)
    requires parts != [] && forall i :: 0 <= i < |parts| ==> separator !in parts[i]
    ensures Split(Join(parts, separator), separator) == parts
  {
    if |parts| == 1 {
      SplitWithout(parts[0], separator);
    } else {
      var rest := Join(parts[1..], separator);
      SplitJoin(parts[1..], separator);
      OneSeparator(parts[0], separator);
      SplitAppend(parts[0] + [separator], rest, separator);
      assert Front([parts[0], []]) == [parts[0]];
      assert [] + rest == rest;
      assert parts == [parts[0]] + parts[1..];
    }
  }
}
