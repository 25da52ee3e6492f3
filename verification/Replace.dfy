/** Replace-all, written twice in the original with the same loop (src/patch/patch_engine.cpp,
    src/rules/rule_engine.cpp), against splitting and joining. */
module Replace {
  import opened Text

  /** Cut `s` at successive leftmost occurrences of `find`. */
  function Split(s: string, find: string): (pieces: seq<string>)
    requires find != ""
    ensures |pieces| >= 1
    decreases |s|
  {
    match Find(s, find, 0)
    case None => [s]
    case Some(i) => [s[..i]] + Split(s[i + |find|..], find)
  }

  function Join(pieces: seq<string>, separator: string): string
    requires |pieces| >= 1
  {
    if |pieces| == 1 then pieces[0]
    else pieces[0] + separator + Join(pieces[1..], separator)
  }

  function ReplaceAll(s: string, find: string, replacement: string): string {
    if find == "" then s else Join(Split(s, find), replacement)
  }

  function Occurrences(s: string, find: string): nat {
    if find == "" then 0 else |Split(s, find)| - 1
  }

  /** `pieces` are what is left of `s` when leftmost, non-overlapping occurrences of `find` are cut
      out: each cut is the first possible one, and none is possible in the last piece. */
  ghost predicate IsLeftmostSplit(pieces: seq<string>, s: string, find: string) {
    && |pieces| >= 1
    && Join(pieces, find) == s
    && (forall k | 0 <= k < |pieces| - 1 :: Find(pieces[k] + find, find, 0) == Some(|pieces[k]|))
    && Find(pieces[|pieces| - 1], find, 0) == None
  }

  lemma {:induction false} SplitIsLeftmost(s: string, find: string)
    requires find != ""
    ensures IsLeftmostSplit(Split(s, find), s, find)
    decreases |s|
  {
    hide Find, At;
    match Find(s, find, 0)
    case None =>
    case Some(i) =>
      var rest := s[i + |find|..];
      SplitIsLeftmost(rest, find);
      FindLeftmost(s, find, 0);
      assert s == s[..i] + find + rest;
      FirstCutIsLeftmost(s[..i], find, rest);
      var pieces := [s[..i]] + Split(rest, find);
      assert pieces[1..] == Split(rest, find);
      assert forall k | 1 <= k < |pieces| :: pieces[k] == Split(rest, find)[k - 1];
  }

  lemma FirstCutIsLeftmost(piece: string, find: string, rest: string)
    requires find != ""
    ensures Find(piece + find, find, 0) == Some(|piece|) <==> Find(piece + find + rest, find, 0) == Some(|piece|)
  {
    hide Find;
    AtShift(piece, find, find, 0);
    AtShift(piece, find + rest, find, 0);
    assert piece + find + rest == piece + (find + rest);
    AtPrefix(piece + find, rest, find, |piece|);
    FindLeftmost(piece + find, find, 0);
    FindLeftmost(piece + find + rest, find, 0);
    assert (find + rest)[..|find|] == find && find[..|find|] == find;
    if AbsentIn(piece + find, find, 0, |piece|) {
      FindIs(piece + find, find, 0, |piece|);
      FindIs(piece + find + rest, find, 0, |piece|);
    }
  }

  /** The leftmost split is unique. */
  lemma {:induction false} SplitUnique(pieces: seq<string>, s: string, find: string)
    requires find != "" && IsLeftmostSplit(pieces, s, find)
    ensures pieces == Split(s, find)
    decreases |pieces|
  {
    hide Find, At;
    if |pieces| > 1 {
      var rest := Join(pieces[1..], find);
      FirstCutIsLeftmost(pieces[0], find, rest);
      assert s[..|pieces[0]|] == pieces[0] && s[|pieces[0]| + |find|..] == rest;
      SplitUnique(pieces[1..], rest, find);
    }
  }

  /** What the in-place loop keeps: before `offset` the work is done, after it the original is left. */
  ghost predicate ReplacedUpTo(source: string, find: string, replacement: string,
                               result: string, offset: nat, count: nat) {
    && offset <= |result|
    && result[..offset] + ReplaceAll(result[offset..], find, replacement) == ReplaceAll(source, find, replacement)
    && count + Occurrences(result[offset..], find) == Occurrences(source, find)
  }

  lemma ReplaceOne(source: string, find: string, replacement: string, result: string, offset: nat, count: nat)
    requires find != "" && ReplacedUpTo(source, find, replacement, result, offset, count)
    requires Find(result, find, offset).Some?
    ensures var cut := Find(result, find, offset).value;
            ReplacedUpTo(source, find, replacement, result[..cut] + replacement + result[cut + |find|..],
                         cut + |replacement|, count + 1)
  {
    hide Find, At, Split, Join, ReplaceAll, Occurrences;
    var cut := Find(result, find, offset).value;
    var head, tail := result[..offset], result[offset..];
    FindFrom(result, find, offset);
    ReplaceStep(tail, find, replacement);
    var k := cut - offset;
    var next := result[..cut] + replacement + result[cut + |find|..];
    assert next[..cut + |replacement|] == head + (tail[..k] + replacement);
    assert next[cut + |replacement|..] == tail[k + |find|..];
    var z := ReplaceAll(tail[k + |find|..], find, replacement);
    assert head + (tail[..k] + replacement) + z == head + (tail[..k] + replacement + z);
  }

  /** The in-place loop. It terminates even when the replacement contains `find`, because the part
      still to be searched gets shorter with every cut. */
  method ReplaceAllInPlace(source: string, findText: string, replaceText: string)
    returns (result: string, count: nat)
    ensures result == ReplaceAll(source, findText, replaceText)
    ensures count == Occurrences(source, findText)
  {
    hide Find, At, Split, Join, ReplacedUpTo, ReplaceAll, Occurrences;
    result, count := source, 0;
    ReplaceStart(source, findText, replaceText);
    if findText == "" {
      return;
    }
    var offset: nat := 0;
    var next := Find(result, findText, offset);
    while next.Some?
      invariant ReplacedUpTo(source, findText, replaceText, result, offset, count)
      invariant next == Find(result, findText, offset)
      decreases |result| - offset
    {
      ReplaceOne(source, findText, replaceText, result, offset, count);
      result := result[..next.value] + replaceText + result[next.value + |findText|..];
      offset := next.value + |replaceText|;
      count := count + 1;
      next := Find(result, findText, offset);
    }
    ReplaceEnd(source, findText, replaceText, result, offset, count);
  }

  lemma ReplaceStart(source: string, find: string, replacement: string)
    ensures find != "" ==> ReplacedUpTo(source, find, replacement, source, 0, 0)
    ensures find == "" ==> ReplaceAll(source, find, replacement) == source && Occurrences(source, find) == 0
  {
    hide Split, Join;
    assert source[..0] == "" && source[0..] == source;
  }

  lemma ReplaceEnd(source: string, find: string, replacement: string, result: string, offset: nat, count: nat)
    requires ReplacedUpTo(source, find, replacement, result, offset, count)
    requires Find(result, find, offset).None?
    ensures result == ReplaceAll(source, find, replacement) && count == Occurrences(source, find)
  {
    hide Find, At, ReplaceAll, Occurrences;
    FindFrom(result, find, offset);
    NoOccurrence(result[offset..], find, replacement);
    assert result[..offset] + result[offset..] == result;
  }

  lemma ReplaceStep(s: string, find: string, replacement: string)
    requires find != "" && Find(s, find, 0).Some?
    ensures var i := Find(s, find, 0).value;
            var rest := s[i + |find|..];
            ReplaceAll(s, find, replacement) == s[..i] + replacement + ReplaceAll(rest, find, replacement)
            && Occurrences(s, find) == 1 + Occurrences(rest, find)
  {
    var i := Find(s, find, 0).value;
    var rest := s[i + |find|..];
    assert ([s[..i]] + Split(rest, find))[1..] == Split(rest, find);
  }

  /** Each cut trades `find` for the replacement. */
  lemma {:induction false} ReplaceLength(s: string, find: string, replacement: string)
    ensures |ReplaceAll(s, find, replacement)| + Occurrences(s, find) * |find|
         == |s| + Occurrences(s, find) * |replacement|
    decreases |s|
  {
    hide Find, At, Split, Join, ReplaceAll, Occurrences;
    NoOccurrence(s, find, replacement);
    if find != "" && Find(s, find, 0).Some? {
      var rest := s[Find(s, find, 0).value + |find|..];
      ReplaceStep(s, find, replacement);
      ReplaceLength(rest, find, replacement);
      var n := Occurrences(rest, find);
      assert (1 + n) * |find| == |find| + n * |find|;
      assert (1 + n) * |replacement| == |replacement| + n * |replacement|;
    }
  }

  /** Nothing is counted exactly when the pattern does not occur, and then nothing changes. */
  lemma NoOccurrence(s: string, find: string, replacement: string)
    ensures Occurrences(s, find) == 0 <==> find == "" || Find(s, find, 0).None?
    ensures Occurrences(s, find) == 0 ==> ReplaceAll(s, find, replacement) == s
  {
  }

  /** Replacing a pattern by itself gives the text back. */
  lemma ReplaceBySelf(s: string, find: string)
    ensures ReplaceAll(s, find, find) == s
  {
    if find != "" {
      SplitIsLeftmost(s, find);
    }
  }
}
