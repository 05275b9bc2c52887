/** The part of the grep exercise that computes what to print: the first
    occurrence of the pattern in a file's bytes, and the bounds of the line
    around it, found by scanning backward and forward for newline bytes. */
module Grep {
  import opened Wrappers

  const NEWLINE_BYTE: bv8 := 0x0A

  /** `pattern` occurs in `text` starting at byte `i`. */
  predicate OccursAt(text: seq<bv8>, pattern: seq<bv8>, i: nat) {
    i + |pattern| <= |text| && text[i..i + |pattern|] == pattern
  }

  /** The first occurrence of `pattern` at or after `from`. */
  function FindFrom(text: seq<bv8>, pattern: seq<bv8>, from: nat): (r: Option<nat>)
    requires from <= |text|
    ensures r.Some? ==> from <= r.value && OccursAt(text, pattern, r.value)
    ensures r.Some? ==> forall j :: from <= j < r.value ==> !OccursAt(text, pattern, j)
    ensures r.None? ==> forall j :: from <= j ==> !OccursAt(text, pattern, j)
    decreases |text| - from
  {
    if from + |pattern| > |text| then None
    else if text[from..from + |pattern|] == pattern then Some(from)
    else FindFrom(text, pattern, from + 1)
  }

  /** `contents.find(pattern)`: the byte index of the first occurrence. */
  function Find(text: seq<bv8>, pattern: seq<bv8>): (r: Option<nat>)
    ensures r.Some? ==> OccursAt(text, pattern, r.value)
    ensures r.Some? ==> forall j :: 0 <= j < r.value ==> !OccursAt(text, pattern, j)
    ensures r.None? <==> forall j :: 0 <= j ==> !OccursAt(text, pattern, j)
  {
    FindFrom(text, pattern, 0)
  }

  /** The backward loop: `lineStart` is the last newline strictly before
      `index`, or 0 when there is none. */
  method ScanLineStart(contents: seq<bv8>, index: nat) returns (lineStart: nat)
    requires index <= |contents|
    ensures lineStart <= index
    ensures 0 < lineStart ==> lineStart < index && contents[lineStart] == NEWLINE_BYTE
    ensures (exists p :: 0 <= p < index && contents[p] == NEWLINE_BYTE) ==>
              lineStart < index && contents[lineStart] == NEWLINE_BYTE
    ensures (forall p :: 0 <= p < index ==> contents[p] != NEWLINE_BYTE) ==> lineStart == 0
    ensures forall p :: lineStart < p < index ==> contents[p] != NEWLINE_BYTE
  {
    lineStart := 0;
    var current: nat := index;
    while current > 0
      invariant current <= index <= |contents|
      invariant lineStart == 0
      invariant forall p :: current <= p < index ==> contents[p] != NEWLINE_BYTE
    {
      current := current - 1;
      if contents[current] == NEWLINE_BYTE {
        lineStart := current;
        break;
      }
    }
  }

  /** The forward loop as written reads `contents[current]` right after
      incrementing `current`. It stays in bounds exactly when every read it
      makes does, which this predicate follows read by read. */
  predicate ForwardReadsInBounds(contents: seq<bv8>, current: nat)
    decreases |contents| - current
  {
    current < |contents| ==>
      current + 1 < |contents| &&
      (contents[current + 1] == NEWLINE_BYTE || ForwardReadsInBounds(contents, current + 1))
  }

  /** The forward loop as written: it needs a newline somewhere after
      `index` (see ForwardReadsInBoundsIff) and finds the first one. */
  method ScanLineEndAsWritten(contents: seq<bv8>, index: nat) returns (lineEnd: nat)
    requires index <= |contents|
    requires ForwardReadsInBounds(contents, index)
    ensures index < |contents| ==> index < lineEnd < |contents| && contents[lineEnd] == NEWLINE_BYTE
    ensures index == |contents| ==> lineEnd == |contents|
    ensures forall p :: index < p < lineEnd ==> contents[p] != NEWLINE_BYTE
  {
    lineEnd := |contents|;
    var current: nat := index;
    while current < |contents|
      invariant index <= current <= |contents|
      invariant index < |contents| ==> current < |contents|
      invariant ForwardReadsInBounds(contents, current)
      invariant lineEnd == |contents|
      invariant forall p :: index < p <= current && p < |contents| ==> contents[p] != NEWLINE_BYTE
      decreases |contents| - current
    {
      current := current + 1;
      if contents[current] == NEWLINE_BYTE {
        lineEnd := current;
        break;
      }
    }
  }

  /** The forward loop with its bound checked before the read: `lineEnd` is
      the first newline after `index`, or the end of the contents. */
  method ScanLineEnd(contents: seq<bv8>, index: nat) returns (lineEnd: nat)
    requires index <= |contents|
    ensures index <= lineEnd <= |contents|
    ensures lineEnd < |contents| ==> index < lineEnd && contents[lineEnd] == NEWLINE_BYTE
    ensures forall p :: index < p < lineEnd ==> contents[p] != NEWLINE_BYTE
  {
    lineEnd := |contents|;
    var current: nat := index;
    while current + 1 < |contents|
      invariant index <= current <= |contents|
      invariant lineEnd == |contents|
      invariant forall p :: index < p <= current && p < |contents| ==> contents[p] != NEWLINE_BYTE
      decreases |contents| - current
    {
      current := current + 1;
      if contents[current] == NEWLINE_BYTE {
        lineEnd := current;
        break;
      }
    }
  }

  /** `lineStart..lineEnd` are the bounds print_match finds around `index`:
      the start is the last newline strictly before `index` (0 when there is
      none), the end the first newline strictly after it (the length of the
      contents when there is none). */
  predicate LineAround(contents: seq<bv8>, index: nat, lineStart: nat, lineEnd: nat) {
    && lineStart <= index <= lineEnd <= |contents|
    && (0 < lineStart ==> lineStart < index && contents[lineStart] == NEWLINE_BYTE)
    && (lineStart == 0 ==> forall p :: 0 < p < index ==> contents[p] != NEWLINE_BYTE)
    && (forall p :: lineStart < p < index ==> contents[p] != NEWLINE_BYTE)
    && (lineEnd < |contents| ==> index < lineEnd && contents[lineEnd] == NEWLINE_BYTE)
    && (forall p :: index < p < lineEnd ==> contents[p] != NEWLINE_BYTE)
  }

  /** The line printed for a match at `index`: from the preceding newline
      (included) or the start, up to the next newline (excluded) or the end. */
  method PrintMatch(contents: seq<bv8>, index: nat) returns (line: seq<bv8>, lineStart: nat, lineEnd: nat)
    requires index <= |contents|
    ensures LineAround(contents, index, lineStart, lineEnd)
    ensures line == contents[lineStart..lineEnd]
    ensures 0 < lineStart ==> line[0] == NEWLINE_BYTE
  {
    lineStart := ScanLineStart(contents, index);
    lineEnd := ScanLineEnd(contents, index);
    line := contents[lineStart..lineEnd];
  }

  /** The bounds around a match are determined by the contents and the
      index: there is only one line to print. */
  lemma {:induction false} LineAroundUnique(contents: seq<bv8>, index: nat, s1: nat, e1: nat, s2: nat, e2: nat)
    requires LineAround(contents, index, s1, e1)
    requires LineAround(contents, index, s2, e2)
    ensures s1 == s2 && e1 == e2
  {
  }

  /** PrintMatch with the forward loop as written. */
  method PrintMatchAsWritten(contents: seq<bv8>, index: nat) returns (line: seq<bv8>, lineStart: nat, lineEnd: nat)
    requires index <= |contents|
    requires ForwardReadsInBounds(contents, index)
    ensures LineAround(contents, index, lineStart, lineEnd)
    ensures line == contents[lineStart..lineEnd]
    ensures index < |contents| ==> lineEnd < |contents| && contents[lineEnd] == NEWLINE_BYTE
  {
    lineStart := ScanLineStart(contents, index);
    lineEnd := ScanLineEndAsWritten(contents, index);
    line := contents[lineStart..lineEnd];
  }

  /** One file's contents: the line around the first match, if any. */
  method MatchContents(contents: seq<bv8>, pattern: seq<bv8>) returns (line: Option<seq<bv8>>)
    ensures line.None? <==> Find(contents, pattern).None?
    ensures line.Some? ==> exists s: nat, e: nat :: LineAround(contents, Find(contents, pattern).value, s, e)
                                           && line.value == contents[s..e]
  {
    match Find(contents, pattern)
    case None =>
      line := None;
    case Some(index) =>
      var l, s, e := PrintMatch(contents, index);
      line := Some(l);
  }

  /** The forward loop as written stays in bounds exactly when the match is
      at the very end or a newline follows it. */
  lemma {:induction false} ForwardReadsInBoundsIff(contents: seq<bv8>, current: nat)
    ensures ForwardReadsInBounds(contents, current) <==>
            current >= |contents| || exists p :: current < p < |contents| && contents[p] == NEWLINE_BYTE
    decreases |contents| - current
  {
    if current + 1 < |contents| {
      ForwardReadsInBoundsIff(contents, current + 1);
      if contents[current + 1] == NEWLINE_BYTE {
        assert current < current + 1 < |contents|;
      }
    }
  }

  /** A match on the last line of a file without a final newline makes the
      loop as written read one byte past the end: "ab" with the match at 0. */
  lemma {:induction false} LastLineReadsPastEnd()
    ensures !ForwardReadsInBounds([0x61, 0x62], 0)
  {
    var s: seq<bv8> := [0x61, 0x62];
    assert !ForwardReadsInBounds(s, 1);
  }
}
