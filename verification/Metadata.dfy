/** Power-hint metadata, `power/metadata-parser.c`: `key=value` segments separated by `;`, cut in
    place by `strtok_r` and copied with truncation into fixed buffers. The four `parse_*_metadata`
    functions of the source have one and the same body, modelled once by `ParseHints`. */
module Metadata {
  import opened Collections
  import opened CStrings

  const SEPARATOR := ';'
  const ASSIGN := '='
  /** Size of the `attribute` and `value` buffers. */
  const BUFFER := 1024

  class Hints {
    var hintId: int
    var state: int
    constructor (hintId: int, state: int)
      ensures this.hintId == hintId && this.state == state
    {
      this.hintId, this.state := hintId, state;
    }
  }

  // -------------------------------------------------------------------------
  // What a segment means
  // -------------------------------------------------------------------------

  function Truncate(s: string): string {
    if |s| > BUFFER - 1 then s[..BUFFER - 1] else s
  }

  /** Text before the first `=`, truncated; empty without an `=`. */
  function Key(seg: string): string {
    var k := SpanNot(seg, ASSIGN);
    if k < |seg| then Truncate(seg[..k]) else ""
  }

  /** Text after the first `=`, truncated; empty without an `=`. */
  function Value(seg: string): string {
    var k := SpanNot(seg, ASSIGN);
    if k < |seg| then Truncate(seg[k + 1..]) else ""
  }

  predicate Sets(seg: string, key: string) {
    Key(seg) == key && Value(seg) != ""
  }

  /** The field after a scan over `segs` that started from `initial`. */
  function Scan(segs: seq<string>, key: string, initial: int): int {
    if segs == [] then initial
    else Scan(segs[1..], key, if Sets(segs[0], key) then Atoi(Value(segs[0])) else initial)
  }

  /** Last wins: the field is the integer of the last segment that sets it. */
  lemma {:induction false} ScanIsLastWins(segs: seq<string>, key: string, initial: int)
    ensures (forall i :: 0 <= i < |segs| ==> !Sets(segs[i], key)) ==> Scan(segs, key, initial) == initial
    ensures forall i :: 0 <= i < |segs| && Sets(segs[i], key) &&
              (forall j :: i < j < |segs| ==> !Sets(segs[j], key))
              ==> Scan(segs, key, initial) == Atoi(Value(segs[i]))
  {
    if segs != [] {
      ScanIsLastWins(segs[1..], key, if Sets(segs[0], key) then Atoi(Value(segs[0])) else initial);
      forall i | 0 <= i < |segs| && Sets(segs[i], key) && (forall j :: i < j < |segs| ==> !Sets(segs[j], key))
        ensures Scan(segs, key, initial) == Atoi(Value(segs[i]))
      {
        if i > 0 { assert segs[i] == segs[1..][i - 1]; }
      }
    }
  }

  // -------------------------------------------------------------------------
  // The same on the text
  // -------------------------------------------------------------------------

  lemma AssignAt(key: string, text: string)
    requires '=' !in key
    ensures SpanNot(key + "=" + text, ASSIGN) == |key|
  {
    var seg := key + "=" + text;
    assert seg[|key|] == '=' && forall k :: 0 <= k < |key| ==> seg[k] == key[k];
  }

  /** The parts of `key=text`, each cut to 1023 characters. */
  lemma PartsAre(key: string, text: string)
    requires '=' !in key
    ensures Key(key + "=" + text) == if |key| <= 1023 then key else key[..1023]
    ensures Value(key + "=" + text) == if |text| <= 1023 then text else text[..1023]
  {
    var seg := key + "=" + text;
    AssignAt(key, text);
    assert seg[..|key|] == key && seg[|key| + 1..] == text;
  }

  /** A segment sets a key exactly if it is the key, an equals sign and some text. */
  lemma SetsIff(seg: string, key: string)
    requires '=' !in key && 0 < |key| < 1023
    ensures Sets(seg, key) <==> |seg| > |key| + 1 && seg[..|key| + 1] == key + "="
  {
    var k := SpanNot(seg, ASSIGN);
    if k < |seg| {
      assert seg == seg[..k] + "=" + seg[k + 1..] && '=' !in seg[..k];
      PartsAre(seg[..k], seg[k + 1..]);
      if seg[..k] == key { assert seg[..k + 1] == key + "="; }
      if |seg| > |key| + 1 && seg[..|key| + 1] == key + "=" { AssignedAt(seg, key); }
    } else if |seg| > |key| + 1 && seg[..|key| + 1] == key + "=" {
      AssignedAt(seg, key);
    }
  }

  lemma AssignedAt(seg: string, key: string)
    requires '=' !in key && |seg| > |key| && seg[..|key| + 1] == key + "="
    ensures SpanNot(seg, ASSIGN) == |key| && seg[..|key|] == key
  {
    assert seg == key + "=" + seg[|key| + 1..];
    AssignAt(key, seg[|key| + 1..]);
  }

  /** Text between semicolons, or at an end of the input, is a segment. */
  lemma IsSegment(before: string, seg: string, after: string) returns (a: seq<string>, b: seq<string>)
    requires ';' !in seg && (before == "" || before[|before| - 1] == ';') && (after == "" || after[0] == ';')
    ensures Split(before + seg + after, ';') == a + [seg] + b && forall s :: s in b ==> s in Split(after, ';')
  {
    b := IsFirst(seg, after);
    a := Behind(before, seg + after);
    assert before + seg + after == before + (seg + after);
    Assoc(a, [seg], b);
  }

  lemma IsFirst(seg: string, after: string) returns (b: seq<string>)
    requires ';' !in seg && (after == "" || after[0] == ';')
    ensures Split(seg + after, ';') == [seg] + b && forall s :: s in b ==> s in Split(after, ';')
  {
    SplitWhole(seg, ';');
    if after == "" {
      b := [];
      assert seg + after == seg && [seg] + [] == [seg];
    } else {
      b := Split(after[1..], ';');
      SplitAt(seg, ';', after[1..]);
      assert seg + after == seg + [';'] + after[1..];
    }
  }

  lemma Behind(before: string, rest: string) returns (a: seq<string>)
    requires before == "" || before[|before| - 1] == ';'
    ensures Split(before + rest, ';') == a + Split(rest, ';')
  {
    if before == "" {
      a := [];
      assert before + rest == rest && [] + Split(rest, ';') == Split(rest, ';');
    } else {
      var head := before[..|before| - 1];
      a := Split(head, ';');
      SplitAt(head, ';', rest);
      assert before + rest == head + [';'] + rest;
    }
  }

  lemma CutKeepsNumber(blank: string, n: int, tail: string)
    requires Blank(blank) && |blank + Decimal(n)| <= 1023 && (tail == "" || !('0' <= tail[0] <= '9'))
    ensures var text := blank + Decimal(n) + tail;
      Atoi(if |text| <= 1023 then text else text[..1023]) == n
  {
    var number := blank + Decimal(n);
    AtoiReads(blank, n, tail);
    if |number + tail| > 1023 {
      var cut := tail[..1023 - |number|];
      assert (number + tail)[..1023] == number + cut;
      AtoiReads(blank, n, cut);
    }
  }

  /** On the text: if `key=` with an integer is the last assignment to the key, the field is that
      integer; white space before it and text behind its digits do not matter. */
  lemma LastAssignmentDecides(before: string, key: string, blank: string, n: int, tail: string, after: string,
                              initial: int)
    requires '=' !in key && ';' !in key && 0 < |key| < 1023 && Blank(blank) && ';' !in blank && ';' !in tail
    requires (tail == "" || !('0' <= tail[0] <= '9')) && |blank + Decimal(n)| <= 1023
    requires (before == "" || before[|before| - 1] == ';') && (after == "" || after[0] == ';')
    requires forall s :: s in Split(after, ';') ==> !(|s| > |key| + 1 && s[..|key| + 1] == key + "=")
    ensures Scan(Split(before + (key + "=" + (blank + Decimal(n) + tail)) + after, ';'), key, initial) == n
  {
    var text := blank + Decimal(n) + tail;
    var seg := key + "=" + text;
    DecimalIsPlain(n);
    var a, b := IsSegment(before, seg, after);
    CutKeepsNumber(blank, n, tail);
    PartsAre(key, text);
    forall s | s in b ensures !Sets(s, key) { SetsIff(s, key); }
    LastOf(a, seg, b, key, initial);
  }

  lemma LastOf(a: seq<string>, seg: string, b: seq<string>, key: string, initial: int)
    requires Sets(seg, key) && forall s :: s in b ==> !Sets(s, key)
    ensures Scan(a + [seg] + b, key, initial) == Atoi(Value(seg))
  {
    var segs, i := a + [seg] + b, |a|;
    assert segs[i] == seg && forall j :: i < j < |segs| ==> segs[j] in b;
    ScanIsLastWins(segs, key, initial);
  }

  /** Nothing that `%d` prints is a separator. */
  lemma DecimalIsPlain(n: int)
    ensures ';' !in Decimal(n) && Decimal(n) != ""
  {
    DigitsArePlain(if n < 0 then -n else n);
  }

  lemma {:induction false} DigitsArePlain(n: nat)
    ensures ';' !in Digits(n)
  {
    if n >= 10 { DigitsArePlain(n / 10); }
  }

  /** Without an assignment to the key the field stays. */
  lemma NoAssignmentKeeps(text: string, key: string, initial: int)
    requires '=' !in key && 0 < |key| < 1023
    requires forall s :: s in Split(text, ';') ==> !(|s| > |key| + 1 && s[..|key| + 1] == key + "=")
    ensures Scan(Split(text, ';'), key, initial) == initial
  {
    forall s | s in Split(text, ';') ensures !Sets(s, key) { SetsIff(s, key); }
    ScanIsLastWins(Split(text, ';'), key, initial);
  }

  /** Skipping empty segments, as `strtok_r` does, never changes a field. */
  lemma {:induction false} ScanIgnoresEmpty(segs: seq<string>, key: string, initial: int)
    ensures Scan(NonEmpty(segs), key, initial) == Scan(segs, key, initial)
  {
    if segs != [] {
      var next := if Sets(segs[0], key) then Atoi(Value(segs[0])) else initial;
      ScanIgnoresEmpty(segs[1..], key, next);
      NonEmptyCons(segs);
    }
  }

  // -------------------------------------------------------------------------
  // The code
  // -------------------------------------------------------------------------

  /** `strncpy(dst, src + from, n)` followed by `dst[n] = '\0'`: copies the C string
      at `from`, at most `n` characters of it; a short source is padded with NUL. */
  method CopyTruncated(dst: array<char>, src: array<char>, from: nat, n: nat, ghost end: nat)
    requires dst != src && n < dst.Length && Terminated(src, from, end)
    modifies dst
    ensures CStr(dst[..]) == if n < end - from then src[from..from + n] else src[from..end]
  {
    var i := 0;
    var ended := false;
    while i < n
      invariant 0 <= i <= n
      invariant ended <==> i > end - from
      invariant !ended ==> dst[..i] == src[from..from + i]
      invariant ended ==> dst[..end - from] == src[from..end] && dst[end - from] == NUL
    {
      if !ended && src[from + i] == NUL {
        ended := true;
      }
      dst[i] := if ended then NUL else src[from + i];
      i := i + 1;
    }
    dst[n] := NUL;
    ghost var m := if n < end - from then n else end - from;
    assert dst[..m] == src[from..from + m];
    CStrIs(dst[..], src[from..from + m]);
  }

  lemma {:induction false} CStrIs(buf: string, text: string)
    requires |text| < |buf| && buf[..|text|] == text && buf[|text|] == NUL && NUL !in text
    ensures CStr(buf) == text
  {
    assert forall j :: 0 <= j < |text| ==> buf[j] == text[j];
  }

  /** `strchr`: index of the first `d`, or of the terminator; with NUL the end of the string. */
  method StrChr(a: array<char>, from: nat, ghost end: nat, d: char) returns (at: nat)
    requires Terminated(a, from, end)
    ensures at == from + SpanNot(a[from..end], d)
  {
    at := from;
    while a[at] != d && a[at] != NUL
      invariant from <= at <= end
      invariant forall k :: from <= k < at ==> a[k] != d
      decreases end - at
    {
      at := at + 1;
    }
    ghost var s := a[from..end];
    assert at < end ==> a[at] in s;
    assert forall k :: 0 <= k < |s| ==> s[k] == a[from + k];
  }

  /** `parse_metadata`: takes the next segment `seg` and fills both buffers from it. */
  method ParseMetadata(a: array<char>, start: nat, ghost end: nat, attribute: array<char>, value: array<char>)
    returns (more: bool, save: nat, ghost seg: string)
    requires Terminated(a, start, end)
    requires attribute.Length == value.Length == BUFFER
    requires a != attribute && a != value && attribute != value
    modifies a, attribute, value
    ensures start <= save <= end && Terminated(a, save, end)
    ensures OnlyCuts(old(a[..]), a[..])
    ensures more <==> Tokens(old(a[start..end]), SEPARATOR) != []
    ensures more ==> Tokens(old(a[start..end]), SEPARATOR) == [seg] + Tokens(a[save..end], SEPARATOR)
    ensures more ==> CStr(attribute[..]) == Key(seg) && CStr(value[..]) == Value(seg)
  {
    var begin, stop;
    more, begin, stop, save := StrtokR(a, start, end, SEPARATOR);
    seg := "";
    if !more { return; }
    seg := a[begin..stop];
    SegmentHasNoNul(old(a[..]), start, end, begin, stop);
    ghost var rest := a[save..end];
    ghost var cut := a[..];
    FillFrom(a, begin, stop, attribute, value);
    assert a[save..end] == cut[save..end] == rest;
  }

  /** The part of `parse_metadata` behind `strtok_r`. */
  method FillFrom(a: array<char>, begin: nat, ghost stop: nat, attribute: array<char>, value: array<char>)
    requires attribute.Length == value.Length == BUFFER
    requires a != attribute && a != value && attribute != value
    requires begin < stop && Terminated(a, begin, stop)
    modifies attribute, value
    ensures CStr(attribute[..]) == Key(a[begin..stop]) && CStr(value[..]) == Value(a[begin..stop])
  {
    attribute[0], value[0] := NUL, NUL;
    CStrIs(attribute[..], "");
    CStrIs(value[..], "");
    var eq := StrChr(a, begin, stop, ASSIGN);
    if a[eq] != NUL {
      KeyAndValueAt(a[..], begin, eq, stop);
      var key := FillKey(a, begin, eq, stop, attribute);
      FillValue(a, begin, eq, key, stop, value);
    }
  }

  lemma SegmentHasNoNul(s: string, start: nat, end: nat, begin: nat, stop: nat)
    requires start <= begin <= stop <= end < |s| && NUL !in s[start..end]
    ensures NUL !in s[begin..stop]
  {
    forall k | begin <= k < stop ensures s[k] != NUL {
      assert s[k] == s[start..end][k - start];
    }
  }

  /** Only separators were overwritten, by NUL. */
  ghost predicate OnlyCuts(before: string, after: string) {
    |before| == |after| &&
    forall k :: 0 <= k < |before| ==> after[k] == before[k] || (before[k] == SEPARATOR && after[k] == NUL)
  }

  /** Copies the key; returns the length of the copy. */
  method FillKey(a: array<char>, begin: nat, eq: nat, ghost stop: nat, attribute: array<char>) returns (n: nat)
    requires attribute.Length == BUFFER && a != attribute
    requires begin <= eq < stop && Terminated(a, begin, stop)
    modifies attribute
    ensures n == (if eq - begin > BUFFER - 1 then BUFFER - 1 else eq - begin)
    ensures CStr(attribute[..]) == a[begin..begin + n]
  {
    n := if eq - begin > BUFFER - 1 then BUFFER - 1 else eq - begin;
    CopyTruncated(attribute, a, begin, n, stop);
  }

  /** Copies the value. The bound on the copy, `strlen(segment) - strlen(key) - 1`, is computed
      with unsigned operands: it does not go below zero. When the key was truncated the bound is
      larger than the value, which then ends the copy itself. */
  method FillValue(a: array<char>, begin: nat, eq: nat, key: nat, ghost stop: nat, value: array<char>)
    requires value.Length == BUFFER && a != value
    requires begin <= eq < stop && Terminated(a, begin, stop)
    requires key == (if eq - begin > BUFFER - 1 then BUFFER - 1 else eq - begin)
    modifies value
    ensures CStr(value[..]) == a[eq + 1..if stop - eq - 1 > BUFFER - 1 then eq + BUFFER else stop]
  {
    var last := StrChr(a, begin, stop, NUL);
    var length := last - begin;
    assert length - key - 1 >= 0;
    var m := if length - key - 1 > BUFFER - 1 then BUFFER - 1 else length - key - 1;
    SegmentHasNoNul(a[..], begin, stop, eq + 1, stop);
    CopyTruncated(value, a, eq + 1, m, stop);
  }

  /** Key and value of the segment `s[begin..stop]` as slices of the whole input. */
  lemma {:induction false} KeyAndValueAt(s: string, begin: nat, eq: nat, stop: nat)
    requires begin <= eq < stop <= |s| && eq == begin + SpanNot(s[begin..stop], ASSIGN)
    ensures Key(s[begin..stop]) == s[begin..if eq - begin > BUFFER - 1 then begin + BUFFER - 1 else eq]
    ensures Value(s[begin..stop]) == s[eq + 1..if stop - eq - 1 > BUFFER - 1 then eq + BUFFER else stop]
  {
    SliceTake(s, begin, stop, eq - begin);
    SliceDrop(s, begin, stop, eq - begin + 1);
    TruncatedSlice(s, begin, eq);
    TruncatedSlice(s, eq + 1, stop);
  }

  lemma TruncatedSlice(s: string, a: nat, b: nat)
    requires a <= b <= |s|
    ensures Truncate(s[a..b]) == s[a..if b - a > BUFFER - 1 then a + BUFFER - 1 else b]
  {
    if b - a > BUFFER - 1 { SliceTake(s, a, b, BUFFER - 1); }
  }

  /** The loop of `parse_cam_preview_metadata` and its three siblings: each field ends as the last
      `;`-separated segment with that exact key and a non-empty value says. */
  method ParseHints(a: array<char>, ghost end: nat, hints: Hints) returns (status: int)
    requires Terminated(a, 0, end)
    modifies a, hints
    ensures status == 0
    ensures hints.hintId == Scan(Split(old(a[..end]), SEPARATOR), "hint_id", old(hints.hintId))
    ensures hints.state == Scan(Split(old(a[..end]), SEPARATOR), "state", old(hints.state))
    ensures OnlyCuts(old(a[..]), a[..])
  {
    var attribute, value := new char[BUFFER], new char[BUFFER];
    ghost var all := Tokens(a[..end], SEPARATOR);
    ScanIgnoresEmpty(Split(a[..end], SEPARATOR), "hint_id", hints.hintId);
    ScanIgnoresEmpty(Split(a[..end], SEPARATOR), "state", hints.state);
    assert a[0..end] == a[..end];
    var more, save, seg := ParseMetadata(a, 0, end, attribute, value);
    while more
      invariant save <= end && Terminated(a, save, end)
      invariant OnlyCuts(old(a[..]), a[..])
      invariant more ==> CStr(attribute[..]) == Key(seg) && CStr(value[..]) == Value(seg)
      invariant Scan(all, "hint_id", old(hints.hintId)) == Scan(Left(more, seg, a[save..end]), "hint_id", hints.hintId)
      invariant Scan(all, "state", old(hints.state)) == Scan(Left(more, seg, a[save..end]), "state", hints.state)
      decreases |Left(more, seg, a[save..end])|
    {
      assert Left(more, seg, a[save..end])[1..] == Tokens(a[save..end], SEPARATOR);
      Apply(attribute, value, hints, seg);
      more, save, seg := ParseMetadata(a, save, end, attribute, value);
    }
    status := 0;
  }

  /** The segments not yet applied. */
  ghost function Left(more: bool, seg: string, rest: string): seq<string> {
    if more then [seg] + Tokens(rest, SEPARATOR) else []
  }

  /** The loop body: exact key comparison, `atoi` of a non-empty value. */
  method Apply(attribute: array<char>, value: array<char>, hints: Hints, ghost seg: string)
    requires CStr(attribute[..]) == Key(seg) && CStr(value[..]) == Value(seg)
    modifies hints
    ensures hints.hintId == if Sets(seg, "hint_id") then Atoi(Value(seg)) else old(hints.hintId)
    ensures hints.state == if Sets(seg, "state") then Atoi(Value(seg)) else old(hints.state)
  {
    var key, text := CStr(attribute[..]), CStr(value[..]);
    if key == "hint_id" {
      if |text| > 0 { hints.hintId := Atoi(text); }
    }
    if key == "state" {
      if |text| > 0 { hints.state := Atoi(text); }
    }
  }
}
