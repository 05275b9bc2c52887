/** The behaviour of Rust's `str::splitn` with a single-character separator,
    which is all the wire codec relies on to take a frame apart. */
module Splitting {
  import opened Wrappers

  /** Number of occurrences of `c` in `s`. */
  function Occurrences(s: string, c: char): nat {
    if |s| == 0 then 0
    else (if s[0] == c then 1 else 0) + Occurrences(s[1..], c)
  }

  /** Occurrences add up over a concatenation. */
  lemma {:induction false} OccurrencesAppend(a: string, b: string, c: char)
    ensures Occurrences(a + b, c) == Occurrences(a, c) + Occurrences(b, c)
  {
    if |a| > 0 {
      assert (a + b)[1..] == a[1..] + b;
      OccurrencesAppend(a[1..], b, c);
    } else {
      assert a + b == b;
    }
  }

  /** A string without `c` holds it zero times. */
  lemma {:induction false} NoOccurrences(s: string, c: char)
    requires c !in s
    ensures Occurrences(s, c) == 0
  {
    if |s| > 0 {
      assert s[0] != c;
      assert c !in s[1..];
      NoOccurrences(s[1..], c);
    }
  }

  /** Index of the first occurrence of `c` in `s`, if there is one. */
  function IndexOf(s: string, c: char): (r: Option<nat>)
    ensures r.Some? ==> r.value < |s| && s[r.value] == c
  {
    if |s| == 0 then None
    else if s[0] == c then Some(0)
    else match IndexOf(s[1..], c)
      case None => None
      case Some(k) => Some(k + 1)
  }

  /** IndexOf finds `c` exactly when `s` holds it, and then at its first
      occurrence. */
  lemma {:induction false} IndexOfFirst(s: string, c: char)
    ensures IndexOf(s, c).None? <==> c !in s
    ensures IndexOf(s, c).Some? ==> c !in s[..IndexOf(s, c).value]
  {
    if |s| > 0 && s[0] != c {
      IndexOfFirst(s[1..], c);
      assert c in s <==> c in s[1..];
      if IndexOf(s[1..], c).Some? {
        var k := IndexOf(s[1..], c).value;
        assert s[..k + 1] == [s[0]] + s[1..][..k];
      }
    }
  }

  /** The parts glued back together with one separator between neighbours. */
  function Join(parts: seq<string>, sep: char): string {
    if |parts| == 0 then ""
    else if |parts| == 1 then parts[0]
    else parts[0] + [sep] + Join(parts[1..], sep)
  }

  /** `s.splitn(n, sep)` collected into a sequence: at most `n` parts, split at
      the first separators, the last part keeping the rest of `s` verbatim.
      Like Rust, the empty string yields one empty part, and `n == 0` none. */
  function SplitN(s: string, n: nat, sep: char): (parts: seq<string>)
    ensures n == 0 ==> parts == []
    ensures n > 0 ==> 1 <= |parts| <= n
    decreases n
  {
    if n == 0 then []
    else if n == 1 then [s]
    else match IndexOf(s, sep)
      case None => [s]
      case Some(i) => [s[..i]] + SplitN(s[i + 1..], n - 1, sep)
  }

  /** No part of SplitN but the last holds the separator, and the last holds
      none either when the limit was not reached. */
  lemma {:induction false} SplitNParts(s: string, n: nat, sep: char)
    ensures var parts := SplitN(s, n, sep);
            && (forall i :: 0 <= i < |parts| - 1 ==> sep !in parts[i])
            && (0 < |parts| < n ==> sep !in parts[|parts| - 1])
    decreases n
  {
    IndexOfFirst(s, sep);
    if n >= 2 && IndexOf(s, sep).Some? {
      var i := IndexOf(s, sep).value;
      var tail := SplitN(s[i + 1..], n - 1, sep);
      var parts := SplitN(s, n, sep);
      SplitNParts(s[i + 1..], n - 1, sep);
      assert parts == [s[..i]] + tail;
      assert forall k :: 1 <= k < |parts| ==> parts[k] == tail[k - 1];
    }
  }

  /** Joining a part in front of at least one other adds one separator. */
  lemma {:induction false} JoinCons(part: string, tail: seq<string>, sep: char)
    requires |tail| >= 1
    ensures Join([part] + tail, sep) == part + [sep] + Join(tail, sep)
  {
    assert ([part] + tail)[1..] == tail;
  }

  /** A string is the part before its first separator, the separator and the
      rest. */
  lemma {:induction false} AroundFirstSeparator(s: string, sep: char, i: nat)
    requires IndexOf(s, sep) == Some(i)
    ensures s == s[..i] + [sep] + s[i + 1..]
  {
  }

  /** Joining the parts with the separator gives back the split string. */
  lemma {:induction false} SplitNJoin(s: string, n: nat, sep: char)
    requires n >= 1
    ensures Join(SplitN(s, n, sep), sep) == s
    decreases n
  {
    var r := IndexOf(s, sep);
    if n >= 2 && r.Some? {
      var i := r.value;
      var post := s[i + 1..];
      var tail := SplitN(post, n - 1, sep);
      SplitNStep(s, n, sep, i);
      assert SplitN(s, n, sep) == [s[..i]] + tail;
      SplitNJoin(post, n - 1, sep);
      JoinCons(s[..i], tail, sep);
      assert Join([s[..i]] + tail, sep) == s[..i] + [sep] + Join(tail, sep);
      AroundFirstSeparator(s, sep, i);
    }
  }

  /** The first separator of `a + [sep] + b` is the one between them when `a`
      holds none. */
  lemma {:induction false} IndexOfAfterPrefix(a: string, sep: char, b: string)
    requires sep !in a
    ensures IndexOf(a + [sep] + b, sep) == Some(|a|)
  {
    var s := a + [sep] + b;
    IndexOfFirst(s, sep);
    assert s[|a|] == sep;
    assert s[..|a|] == a;
  }

  /** SplitN undoes Join when every part but the last is free of the
      separator: the last part may hold separators of its own. */
  lemma {:induction false} SplitJoin(parts: seq<string>, sep: char)
    requires |parts| >= 1
    requires forall i :: 0 <= i < |parts| - 1 ==> sep !in parts[i]
    ensures SplitN(Join(parts, sep), |parts|, sep) == parts
    decreases |parts|
  {
    if |parts| > 1 {
      var head, tail := parts[0], parts[1..];
      assert parts == [head] + tail;
      SplitJoin(tail, sep);
      SplitJoinStep(head, tail, sep);
    }
  }

  /** One step of SplitJoin: the head comes off at the first separator. */
  lemma {:induction false} SplitJoinStep(head: string, tail: seq<string>, sep: char)
    requires sep !in head && |tail| >= 1
    ensures SplitN(Join([head] + tail, sep), |tail| + 1, sep) == [head] + SplitN(Join(tail, sep), |tail|, sep)
  {
    var rest := Join(tail, sep);
    JoinCons(head, tail, sep);
    SplitAfterPrefix(head, sep, rest, |tail| + 1);
    assert Join([head] + tail, sep) == head + [sep] + rest;
  }

  /** Splitting `a + [sep] + b`, with no separator in `a`, gives `a` and then
      the parts of `b`. */
  lemma {:induction false} SplitAfterPrefix(a: string, sep: char, b: string, n: nat)
    requires sep !in a && n >= 2
    ensures SplitN(a + [sep] + b, n, sep) == [a] + SplitN(b, n - 1, sep)
  {
    var s := a + [sep] + b;
    IndexOfAfterPrefix(a, sep, b);
    assert s[..|a|] == a && s[|a| + 1..] == b;
    SplitNStep(s, n, sep, |a|);
  }

  /** SplitN yields one part more than there are separators, up to `n`. */
  lemma {:induction false} SplitNCount(s: string, n: nat, sep: char)
    requires n >= 1
    ensures |SplitN(s, n, sep)| == if Occurrences(s, sep) + 1 < n then Occurrences(s, sep) + 1 else n
    decreases n, 1
  {
    if n > 1 {
      IndexOfFirst(s, sep);
      match IndexOf(s, sep)
      case None =>
        SplitNWhole(s, n, sep);
        NoOccurrences(s, sep);
      case Some(i) =>
        SplitNCountAt(s, n, sep, i);
    }
  }

  /** SplitNCount when the first separator of `s` is at `i`. */
  lemma {:induction false} SplitNCountAt(s: string, n: nat, sep: char, i: nat)
    requires n >= 2 && IndexOf(s, sep) == Some(i)
    ensures |SplitN(s, n, sep)| == if Occurrences(s, sep) + 1 < n then Occurrences(s, sep) + 1 else n
    decreases n, 0
  {
    var post := s[i + 1..];
    SeparatorSplit(s, i, sep);
    SplitNStep(s, n, sep, i);
    SplitNCount(post, n - 1, sep);
    assert |SplitN(s, n, sep)| == 1 + |SplitN(post, n - 1, sep)|;
  }

  /** At the first separator, the separators of `s` are that one plus those
      after it. */
  lemma {:induction false} SeparatorSplit(s: string, i: nat, sep: char)
    requires IndexOf(s, sep) == Some(i)
    ensures Occurrences(s, sep) == Occurrences(s[i + 1..], sep) + 1
  {
    AroundFirstSeparator(s, sep, i);
    IndexOfFirst(s, sep);
    NoOccurrences(s[..i], sep);
    OccurrencesAppend(s[..i] + [sep], s[i + 1..], sep);
    OccurrencesAppend(s[..i], [sep], sep);
  }

  /** Any sequence of parts with the shape SplitN promises is SplitN's
      result: its contract pins the result down completely. */
  lemma {:induction false} SplitNUnique(s: string, n: nat, sep: char, parts: seq<string>)
    requires 1 <= |parts| <= n
    requires Join(parts, sep) == s
    requires forall i :: 0 <= i < |parts| - 1 ==> sep !in parts[i]
    requires |parts| < n ==> sep !in parts[|parts| - 1]
    ensures SplitN(s, n, sep) == parts
  {
    SplitJoin(parts, sep);
    if |parts| < n {
      JoinOccurrences(parts, sep);
      SplitNPrefix(s, |parts|, n, sep);
    }
  }

  /** Joining separator-free parts puts exactly one separator in each gap. */
  lemma {:induction false} JoinOccurrences(parts: seq<string>, sep: char)
    requires |parts| >= 1
    requires forall i :: 0 <= i < |parts| - 1 ==> sep !in parts[i]
    requires sep !in parts[|parts| - 1]
    ensures Occurrences(Join(parts, sep), sep) == |parts| - 1
    decreases |parts|
  {
    var head := parts[0];
    assert sep !in head;
    NoOccurrences(head, sep);
    if |parts| > 1 {
      var tail := parts[1..];
      assert parts == [head] + tail;
      JoinOccurrences(tail, sep);
      JoinCons(head, tail, sep);
      OccurrencesAppend(head + [sep], Join(tail, sep), sep);
      OccurrencesAppend(head, [sep], sep);
    }
  }

  /** Without a separator there is nothing to split. */
  lemma {:induction false} SplitNWhole(s: string, n: nat, sep: char)
    requires n >= 1 && sep !in s
    ensures SplitN(s, n, sep) == [s]
  {
    IndexOfFirst(s, sep);
  }

  /** One step of SplitN: the part before the first separator, then the rest
      split with a limit one smaller. */
  lemma {:induction false} SplitNStep(s: string, n: nat, sep: char, i: nat)
    requires n >= 2 && IndexOf(s, sep) == Some(i)
    ensures SplitN(s, n, sep) == [s[..i]] + SplitN(s[i + 1..], n - 1, sep)
  {
  }

  /** With fewer separators than the limit allows, raising the limit changes
      nothing. */
  lemma {:induction false} SplitNPrefix(s: string, m: nat, n: nat, sep: char)
    requires 1 <= m <= n
    requires Occurrences(s, sep) + 1 <= m
    ensures SplitN(s, n, sep) == SplitN(s, m, sep)
    decreases m, 1
  {
    IndexOfFirst(s, sep);
    if sep !in s {
      SplitNWhole(s, n, sep);
      SplitNWhole(s, m, sep);
    } else {
      SplitNPrefixAt(s, m, n, sep, IndexOf(s, sep).value);
    }
  }

  /** SplitNPrefix when the first separator of `s` is at `i`. */
  lemma {:induction false} SplitNPrefixAt(s: string, m: nat, n: nat, sep: char, i: nat)
    requires 1 <= m <= n
    requires Occurrences(s, sep) + 1 <= m
    requires IndexOf(s, sep) == Some(i)
    ensures SplitN(s, n, sep) == SplitN(s, m, sep)
    decreases m, 0
  {
    var post := s[i + 1..];
    SeparatorSplit(s, i, sep);
    SplitNPrefix(post, m - 1, n - 1, sep);
    calc {
      SplitN(s, n, sep);
      { SplitNStep(s, n, sep, i); }
      [s[..i]] + SplitN(post, n - 1, sep);
      [s[..i]] + SplitN(post, m - 1, sep);
      { SplitNStep(s, m, sep, i); }
      SplitN(s, m, sep);
    }
  }
}
