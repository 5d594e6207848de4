/**
 Reading numbers out of the text the vendor tool prints. Each parser finds a
 marker, skips a fixed number of characters after it, and reads an integer up
 to the next `.`; a reply that does not fit yields `None` where Python raises.
 */
module Replies {
  import opened Optional
  import opened PyText

  /** The characters between a query's target and its value, as in `[gpu:0]): 45.`. */
  const QueryGap: string := "]): "

  /** What an assignment reply says before the new value. */
  const AssignedMarker: string := "assigned value"

  /** The offset from the start of `AssignedMarker` to the value (the marker and a blank). */
  const AssignedOffset: int := 15

  /** The line that follows the temperature in a temperature query's reply. */
  const CoreTempMarker: string := "'GPUCoreTemp' is an integer attribute"

  /** `output[start:].find(".") + start`: the first `.` from `start` on, or `start - 1`. */
  function DotFrom(output: string, start: int): int
  {
    Find(SliceFrom(output, start), ".", 0) + start
  }

  /** The text a query reply (`getAttribute`) reads as the value: after the first occurrence
      of the target, skip it and the four characters after it, and stop at the next `.`. */
  function QueryText(output: string, target: string): (r: string)
    ensures var start := Find(output, target, 0) + |target| + |QueryGap|;
            && (HasDotFrom(output, start) ==> UpToDot(output, start, r))
            && (!HasDotFrom(output, start) ==> r == if start < |output| then output[start..|output| - 1] else "")
  {
    var start := Find(output, target, 0) + |target| + |QueryGap|;
    SliceToFoundDot(output, start);
    Slice(output, start, Find(output, ".", start))
  }

  /** The value of a query reply: `int()` of its text, `None` where that raises. */
  function QueryValue(output: string, target: string): Option<int>
  {
    ParseInt(QueryText(output, target))
  }

  /** The text an assignment reply (`enableFanControl`) reads as the new value: fifteen
      characters after the marker, up to the next `.`. */
  function AssignedText(output: string): (r: string)
    ensures var start := Find(output, AssignedMarker, 0) + AssignedOffset;
            && (HasDotFrom(output, start) ==> UpToDot(output, start, r))
            && (!HasDotFrom(output, start) ==> r == "")
  {
    var start := Find(output, AssignedMarker, 0) + AssignedOffset;
    SliceToDotFrom(output, start);
    Slice(output, start, DotFrom(output, start))
  }

  /** The parsed value, or the 0 the program falls back to when parsing raised. */
  function OrZero(o: Option<int>): int
  {
    match o
    case Some(v) => v
    case None => 0
  }

  /** The value an assignment reply reports, or 0 when its text is not an integer. */
  function AssignedValue(output: string): (v: int)
    ensures !HasDotFrom(output, Find(output, AssignedMarker, 0) + AssignedOffset) ==> v == 0
  {
    OrZero(ParseInt(AssignedText(output)))
  }

  /** Manual fan control counts as enabled exactly when the reply reports the value 1. */
  predicate EnableConfirmed(output: string)
  {
    AssignedValue(output) == 1
  }

  /** The text the fixed-curve script reads as the temperature: after the last `:` (and one
      blank) before the attribute description, up to the next `.`. */
  function CoreTempText(output: string): string
  {
    TextBeforeMarker(output, CoreTempMarker)
  }

  /** The text after the last `:` (and one blank) before the first `marker`, up to the
      next `.`. */
  function TextBeforeMarker(output: string, marker: string): (r: string)
    ensures var start := RFind(SliceTo(output, Find(output, marker, 0)), ":") + 2;
            && (HasDotFrom(output, start) ==> UpToDot(output, start, r))
            && (!HasDotFrom(output, start) ==> r == "")
  {
    var at := Find(output, marker, 0);
    var start := RFind(SliceTo(output, at), ":") + 2;
    SliceToDotFrom(output, start);
    Slice(output, start, DotFrom(output, start))
  }

  /** The temperature of such a reply, `None` where `int()` raises. */
  function CoreTempValue(output: string): (v: Option<int>)
    ensures !HasDotFrom(output, RFind(SliceTo(output, Find(output, CoreTempMarker, 0)), ":") + 2) ==> v == None
  {
    ParseInt(CoreTempText(output))
  }

  /** No character of `s` is a `.`. */
  predicate DotFree(s: string)
  {
    forall k :: 0 <= k < |s| ==> s[k] != '.'
  }

  /** Some `.` stands at or after `start`. */
  predicate HasDotFrom(output: string, start: int)
  {
    exists k :: 0 <= k && start <= k < |output| && output[k] == '.'
  }

  /** `r` is the text of `output` from `start` up to, not including, the first `.` at or
      after `start`. */
  predicate UpToDot(output: string, start: int, r: string)
  {
    0 <= start && start + |r| < |output| && output[start..start + |r|] == r && DotFree(r)
    && output[start + |r|] == '.'
  }

  /** `output.find(".", start)` finds the first `.` at or after `start`, or -1 when there is
      none. */
  lemma FirstDotFrom(output: string, start: nat)
    ensures var e := Find(output, ".", start);
            && (HasDotFrom(output, start) <==> e >= 0)
            && (e >= 0 ==> start <= e < |output| && output[e] == '.' && DotFree(output[start..e]))
  {
    var e := Find(output, ".", start);
    if e >= 0 {
      OccursAtChar(output, '.', e);
      forall k | 0 <= k < e - start
        ensures output[start..e][k] != '.'
      {
        OccursAtChar(output, '.', start + k);
      }
    } else {
      forall k | start <= k < |output|
        ensures output[k] != '.'
      {
        OccursAtChar(output, '.', k);
      }
    }
  }

  /** `output[start:output.find(".", start)]`, as `getAttribute` slices: the text up to the
      next `.`, or, with no `.` left, the rest of the reply without its last character. */
  lemma SliceToFoundDot(output: string, start: nat)
    ensures var r := Slice(output, start, Find(output, ".", start));
            && (HasDotFrom(output, start) ==> UpToDot(output, start, r))
            && (!HasDotFrom(output, start) ==> r == if start < |output| then output[start..|output| - 1] else "")
  {
    FirstDotFrom(output, start);
  }

  /** `output[start:DotFrom(output, start)]` for a positive `start`, as the other two parsers
      slice: the text up to the next `.`, or the empty text when no `.` is left. */
  lemma SliceToDotFrom(output: string, start: nat)
    requires start > 0
    ensures var r := Slice(output, start, DotFrom(output, start));
            && (HasDotFrom(output, start) ==> UpToDot(output, start, r))
            && (!HasDotFrom(output, start) ==> r == "")
  {
    if start <= |output| {
      var tail := SliceFrom(output, start);
      assert tail == output[start..];
      FirstDotFrom(tail, 0);
      var d := Find(tail, ".", 0);
      if d >= 0 {
        assert output[start + d] == tail[d];
        assert output[start..start + d] == tail[0..d];
      } else {
        forall k | start <= k < |output|
          ensures output[k] != '.'
        {
          assert output[k] == tail[k - start];
        }
      }
    }
  }

  /** What `"%d"` prints contains no `.`. */
  lemma NumberIsDotFree(v: int)
    ensures DotFree(IntToString(v))
  {
    var n := IntToString(v);
    forall k | 0 <= k < |n|
      ensures n[k] != '.'
    {
      if v < 0 && k > 0 {
        assert n[k] == n[1..][k - 1];
      }
    }
  }

  /** When `n` stands at `at` and is followed by a `.`, the first `.` from `at` on
      closes it. */
  lemma DotAfter(s: string, at: nat, n: string)
    requires DotFree(n) && at + |n| < |s|
    requires s[at..at + |n|] == n && s[at + |n|] == '.'
    ensures Find(s, ".", at) == at + |n|
  {
    forall i | at <= i < at + |n|
      ensures !OccursAt(s, ".", i)
    {
      OccursAtChar(s, '.', i);
      assert s[i] == n[i - at];
    }
    OccursAtChar(s, '.', at + |n|);
    FindAt(s, ".", at, at + |n|);
  }

  /** The same, read on the tail of `s` from `at`, as the parsers slice it. */
  lemma DotAfterInTail(s: string, at: nat, n: string)
    requires DotFree(n) && at + |n| < |s|
    requires s[at..at + |n|] == n && s[at + |n|] == '.'
    ensures Find(SliceFrom(s, at), ".", 0) == |n|
  {
    var rest := SliceFrom(s, at);
    assert rest == s[at..];
    assert rest[0..|n|] == s[at..at + |n|];
    assert rest[|n|] == s[at + |n|];
    DotAfter(rest, 0, n);
  }

  /** The last `:` in `s[:at]` is at `c` when none follows it before `at`. */
  lemma LastColonBefore(s: string, at: nat, c: nat)
    requires c < at <= |s| && s[c] == ':'
    requires forall i :: c < i < at ==> s[i] != ':'
    ensures RFind(SliceTo(s, at), ":") == c
  {
    var before := SliceTo(s, at);
    assert before == s[..at];
    OccursAtChar(before, ':', c);
    forall i | c < i
      ensures !OccursAt(before, ":", i)
    {
      OccursAtChar(before, ':', i);
    }
    RFindAt(before, ":", c);
  }

  /** In a query reply whose first occurrence of the target is at `p`, followed four
      characters later by a `.`-free text `n` and a `.`, the value's text is `n`. */
  lemma QueryTextAt(output: string, target: string, p: nat, n: string)
    requires OccursAt(output, target, p)
    requires forall i :: 0 <= i < p ==> !OccursAt(output, target, i)
    requires DotFree(n)
    requires var start := p + |target| + |QueryGap|;
             start + |n| < |output| && output[start..start + |n|] == n && output[start + |n|] == '.'
    ensures QueryText(output, target) == n
  {
    FindAt(output, target, 0, p);
    DotAfter(output, p + |target| + |QueryGap|, n);
  }

  /** A well-formed query reply reads back the value it reports. */
  lemma QueryValueRoundTrip(prefix: string, target: string, v: int, suffix: string)
    requires var output := prefix + target + QueryGap + IntToString(v) + "." + suffix;
             forall i :: 0 <= i < |prefix| ==> !OccursAt(output, target, i)
    ensures QueryValue(prefix + target + QueryGap + IntToString(v) + "." + suffix, target) == Some(v)
  {
    var n := IntToString(v);
    var output := prefix + target + QueryGap + n + "." + suffix;
    var start := |prefix| + |target| + |QueryGap|;
    assert output[|prefix|..|prefix| + |target|] == target;
    assert output[start..start + |n|] == n;
    assert output[start + |n|] == '.';
    NumberIsDotFree(v);
    QueryTextAt(output, target, |prefix|, n);
    ParseIntRoundTrip(v);
  }

  /** In an assignment reply whose first marker is at `p`, followed after the blank by a
      `.`-free text `n` and a `.`, the value's text is `n`. */
  lemma AssignedTextAt(output: string, p: nat, n: string)
    requires OccursAt(output, AssignedMarker, p)
    requires forall i :: 0 <= i < p ==> !OccursAt(output, AssignedMarker, i)
    requires DotFree(n)
    requires var start := p + AssignedOffset;
             start + |n| < |output| && output[start..start + |n|] == n && output[start + |n|] == '.'
    ensures AssignedText(output) == n
  {
    FindAt(output, AssignedMarker, 0, p);
    DotAfterInTail(output, p + AssignedOffset, n);
  }

  /** A well-formed assignment reply reports its value, and confirms manual control exactly
      when that value is 1. */
  lemma EnableConfirmedRoundTrip(prefix: string, v: int, suffix: string)
    requires var output := prefix + AssignedMarker + " " + IntToString(v) + "." + suffix;
             forall i :: 0 <= i < |prefix| ==> !OccursAt(output, AssignedMarker, i)
    ensures AssignedValue(prefix + AssignedMarker + " " + IntToString(v) + "." + suffix) == v
    ensures EnableConfirmed(prefix + AssignedMarker + " " + IntToString(v) + "." + suffix) <==> v == 1
  {
    var n := IntToString(v);
    var output := prefix + AssignedMarker + " " + n + "." + suffix;
    var start := |prefix| + AssignedOffset;
    assert output[|prefix|..|prefix| + |AssignedMarker|] == AssignedMarker;
    assert output[start..start + |n|] == n;
    assert output[start + |n|] == '.';
    NumberIsDotFree(v);
    AssignedTextAt(output, |prefix|, n);
    ParseIntRoundTrip(v);
  }

  /** A reply with a lower-case word where the value belongs (an error text) reports 0 and
      so does not confirm manual control. */
  lemma EnableRefusedWord(prefix: string, word: string, suffix: string)
    requires |word| > 0 && forall k :: 0 <= k < |word| ==> 'a' <= word[k] <= 'z'
    requires var output := prefix + AssignedMarker + " " + word + "." + suffix;
             forall i :: 0 <= i < |prefix| ==> !OccursAt(output, AssignedMarker, i)
    ensures AssignedValue(prefix + AssignedMarker + " " + word + "." + suffix) == 0
    ensures !EnableConfirmed(prefix + AssignedMarker + " " + word + "." + suffix)
  {
    var output := prefix + AssignedMarker + " " + word + "." + suffix;
    var start := |prefix| + AssignedOffset;
    assert output[|prefix|..|prefix| + |AssignedMarker|] == AssignedMarker;
    assert output[start..start + |word|] == word;
    assert output[start + |word|] == '.';
    AssignedTextAt(output, |prefix|, word);
    ParseIntRejectsWord(word);
  }

  /** `int()` raises on a lower-case word. */
  lemma ParseIntRejectsWord(word: string)
    requires |word| > 0 && forall k :: 0 <= k < |word| ==> 'a' <= word[k] <= 'z'
    ensures ParseInt(word) == None
  {
    StripUnpadded(word);
    assert !IsDigit(word[0]);
  }

  /** In a reply whose first `marker` starts at `at`, with the last `:` before it at `c`,
      then a blank, a `.`-free text `n` and a `.`, the text read is `n`. */
  lemma TextBeforeMarkerAt(output: string, marker: string, at: nat, c: nat, n: string)
    requires OccursAt(output, marker, at)
    requires forall i :: 0 <= i < at ==> !OccursAt(output, marker, i)
    requires c < at && output[c] == ':' && forall i :: c < i < at ==> output[i] != ':'
    requires DotFree(n)
    requires c + 2 + |n| < |output| && output[c + 2..c + 2 + |n|] == n && output[c + 2 + |n|] == '.'
    ensures TextBeforeMarker(output, marker) == n
  {
    FindAt(output, marker, 0, at);
    LastColonBefore(output, at, c);
    DotAfterInTail(output, c + 2, n);
    assert DotFrom(output, c + 2) == c + 2 + |n|;
  }

  /** A well-formed temperature reply reads back the temperature it reports, provided no
      `:` stands between the number and the attribute description. */
  lemma CoreTempRoundTrip(prefix: string, v: int, middle: string, suffix: string)
    requires forall k :: 0 <= k < |middle| ==> middle[k] != ':'
    requires var output := prefix + ": " + IntToString(v) + "." + middle + CoreTempMarker + suffix;
             forall i :: 0 <= i < |prefix| + 3 + |IntToString(v)| + |middle| ==> !OccursAt(output, CoreTempMarker, i)
    ensures CoreTempValue(prefix + ": " + IntToString(v) + "." + middle + CoreTempMarker + suffix) == Some(v)
  {
    var n := IntToString(v);
    var output := prefix + ": " + n + "." + middle + CoreTempMarker + suffix;
    var at := |prefix| + 3 + |n| + |middle|;
    var c := |prefix|;
    assert output[at..at + |CoreTempMarker|] == CoreTempMarker;
    forall i | c < i < at
      ensures output[i] != ':'
    {
      if c + 2 <= i < c + 2 + |n| {
        assert output[i] == n[i - c - 2];
      } else if c + 3 + |n| <= i {
        assert output[i] == middle[i - c - 3 - |n|];
      }
    }
    assert output[c + 2..c + 2 + |n|] == n;
    NumberIsDotFree(v);
    TextBeforeMarkerAt(output, CoreTempMarker, at, c, n);
    ParseIntRoundTrip(v);
  }
}
