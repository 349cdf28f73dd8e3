/** `splitString`, `combineStrings` and `replaceStrings`. */
module StringTools {

  predicate OccursAt(s: string, d: string, i: nat) {
    i + |d| <= |s| && s[i..i + |d|] == d
  }

  /** `find`: the first occurrence of `d` at or behind `from`; npos is -1. */
  function Find(s: string, d: string, from: nat): (r: int)
    requires from <= |s|
    ensures r == -1 ==> forall i :: from <= i <= |s| ==> !OccursAt(s, d, i)
    ensures r != -1 ==> from <= r && OccursAt(s, d, r) && forall i :: from <= i < r ==> !OccursAt(s, d, i)
    decreases |s| - from
  {
    if OccursAt(s, d, from) then from else if from == |s| then -1 else Find(s, d, from + 1)
  }

  /** The pieces of s[start..]. */
  function SplitFrom(s: string, d: string, start: nat): (r: seq<string>)
    requires |d| > 0 && start <= |s|
    ensures |r| > 0
    decreases |s| - start
  {
    var end := Find(s, d, start);
    if end == -1 then [s[start..]] else [s[start..end]] + SplitFrom(s, d, end + |d|)
  }

  function Split(s: string, d: string): (r: seq<string>)
    ensures |r| > 0
  {
    if d == "" || s == "" then [s] else SplitFrom(s, d, 0)
  }

  function NonEmpty(parts: seq<string>): seq<string> {
    if |parts| == 0 then [] else (if parts[0] == "" then [] else [parts[0]]) + NonEmpty(parts[1..])
  }

  lemma {:induction false} NonEmptySnoc(parts: seq<string>, p: string)
    ensures NonEmpty(parts + [p]) == NonEmpty(parts) + if p == "" then [] else [p]
  {
    if |parts| > 0 {
      assert (parts + [p])[1..] == parts[1..] + [p];
      NonEmptySnoc(parts[1..], p);
    }
  }

  /** `at` lists, in order, where the pieces of `kept` stand among the parts. */
  ghost predicate ArePositions(parts: seq<string>, kept: seq<string>, at: seq<nat>) {
    && |at| == |kept| && (forall i, j :: 0 <= i < j < |at| ==> at[i] < at[j])
    && forall i :: 0 <= i < |at| ==> at[i] < |parts| && parts[at[i]] == kept[i]
  }

  /** The pieces kept are the non-empty ones, each where it stood among them. */
  lemma {:induction false} NonEmptyPositions(parts: seq<string>) returns (at: seq<nat>)
    ensures ArePositions(parts, NonEmpty(parts), at)
    ensures forall k :: 0 <= k < |parts| ==> (parts[k] != "" <==> k in at)
  {
    hide NonEmpty;
    if |parts| == 0 {
      at := [];
      assert NonEmpty(parts) == [] by { NothingKept(); }
    } else {
      var n := |parts| - 1;
      var before := NonEmptyPositions(parts[..n]);
      assert parts == parts[..n] + [parts[n]];
      NonEmptySnoc(parts[..n], parts[n]);
      at := if parts[n] == "" then before else before + [n];
      OnePartMore(parts, before, at);
    }
  }

  lemma OnePartMore(parts: seq<string>, before: seq<nat>, at: seq<nat>)
    requires |parts| > 0 && forall i :: 0 <= i < |before| ==> before[i] < |parts| - 1
    requires forall k :: 0 <= k < |parts| - 1 ==> (parts[..|parts| - 1][k] != "" <==> k in before)
    requires at == if parts[|parts| - 1] == "" then before else before + [|parts| - 1]
    ensures forall k :: 0 <= k < |parts| ==> (parts[k] != "" <==> k in at)
  {
    forall k | 0 <= k < |parts| ensures parts[k] != "" <==> k in at {
      if k < |parts| - 1 {
        assert parts[..|parts| - 1][k] == parts[k];
      } else {
        assert k !in before;
      }
    }
  }

  lemma NothingKept()
    ensures NonEmpty([]) == []
  {
  }

  /** `splitString`. */
  method SplitString(s: string, d: string, removeEmpty: bool) returns (result: seq<string>)
    ensures result == if d != "" && s != "" && removeEmpty then NonEmpty(Split(s, d)) else Split(s, d)
  {
    hide NonEmpty, Split, SplitFrom, Find;
    SplitWhole(s, d);
    if d == "" || s == "" {
      return [s];
    }
    result := [];
    var start := 0;
    var end := Find(s, d, start);
    while end != -1
      invariant 0 <= start <= |s| && end == Find(s, d, start)
      invariant Split(s, d) == result + SplitFrom(s, d, start)
      decreases |s| - start
    {
      SplitNext(s, d, start);
      var token := s[start..end];
      start := end + |d|;
      result := result + [token];
      end := Find(s, d, start);
    }
    SplitNext(s, d, start);
    if start <= |s| {
      result := result + [s[start..]];
    }
    if removeEmpty {
      result := RemoveEmpty(result);
    }
  }

  lemma SplitWhole(s: string, d: string)
    ensures Split(s, d) == if d == "" || s == "" then [s] else [] + SplitFrom(s, d, 0)
  {
  }

  lemma SplitNext(s: string, d: string, start: nat)
    requires d != "" && start <= |s|
    ensures var end := Find(s, d, start);
      if end == -1 then SplitFrom(s, d, start) == [s[start..]]
      else start <= end && end + |d| <= |s| && SplitFrom(s, d, start) == [s[start..end]] + SplitFrom(s, d, end + |d|)
  {
  }

  /** `erase_if` on the empty pieces. */
  method RemoveEmpty(parts: seq<string>) returns (r: seq<string>)
    ensures r == NonEmpty(parts)
  {
    r := [];
    for i := 0 to |parts|
      invariant NonEmpty(parts) == r + NonEmpty(parts[i..])
    {
      assert parts[i..][1..] == parts[i + 1..];
      if parts[i] != "" {
        r := r + [parts[i]];
      }
    }
  }

  /** The strings with `d` in between; nothing for no strings. */
  function Combine(parts: seq<string>, d: string): string {
    if |parts| == 0 then "" else if |parts| == 1 then parts[0] else parts[0] + d + Combine(parts[1..], d)
  }

  /** Every string followed by `d`. */
  function Terminated(parts: seq<string>, d: string): string {
    if |parts| == 0 then "" else parts[0] + d + Terminated(parts[1..], d)
  }

  lemma {:induction false} TerminatedIsCombined(parts: seq<string>, d: string)
    requires |parts| > 0
    ensures Terminated(parts, d) == Combine(parts, d) + d
  {
    if |parts| > 1 {
      TerminatedIsCombined(parts[1..], d);
      assert parts[0] + d + (Combine(parts[1..], d) + d) == parts[0] + d + Combine(parts[1..], d) + d;
    } else {
      assert parts[1..] == [] && Terminated(parts, d) == parts[0] + d + "";
    }
  }

  /** `combineStrings`; the length of an empty result wraps around to npos. */
  method CombineStrings(parts: seq<string>, d: string) returns (r: string)
    ensures r == Combine(parts, d)
  {
    var result := "";
    for i := 0 to |parts|
      invariant Terminated(parts, d) == result + Terminated(parts[i..], d)
    {
      assert parts[i..][1..] == parts[i + 1..];
      assert result + (parts[i] + d + Terminated(parts[i + 1..], d)) == result + parts[i] + d + Terminated(parts[i + 1..], d);
      result := result + parts[i];
      result := result + d;
    }
    assert result + "" == result;
    if |parts| > 0 {
      TerminatedIsCombined(parts, d);
    }
    r := if |result| >= |d| then result[..|result| - |d|] else result;
  }

  /** The string with every occurrence of `search` from `pos` on replaced. */
  function ReplaceFrom(s: string, search: string, replace: string, pos: nat): string
    requires |search| > 0 && pos <= |s|
    decreases |s| - pos
  {
    var at := Find(s, search, pos);
    if at == -1 then s[pos..] else s[pos..at] + replace + ReplaceFrom(s, search, replace, at + |search|)
  }

  lemma {:induction false} FindShift(p: string, s: string, d: string, from: nat)
    requires from <= |s|
    ensures Find(p + s, d, |p| + from) == if Find(s, d, from) == -1 then -1 else |p| + Find(s, d, from)
    decreases |s| - from
  {
    assert (p + s)[|p|..] == s;
    assert OccursAt(p + s, d, |p| + from) <==> OccursAt(s, d, from) by {
      if from + |d| <= |s| {
        assert (p + s)[|p| + from..|p| + from + |d|] == s[from..from + |d|];
      }
    }
    if !OccursAt(s, d, from) && from < |s| {
      FindShift(p, s, d, from + 1);
    }
  }

  lemma {:induction false} ReplaceShift(p: string, s: string, search: string, replace: string, pos: nat)
    requires |search| > 0 && pos <= |s|
    ensures ReplaceFrom(p + s, search, replace, |p| + pos) == ReplaceFrom(s, search, replace, pos)
    decreases |s| - pos
  {
    hide Find, OccursAt, ReplaceFrom;
    FindShift(p, s, search, pos);
    FindWithin(s, search, pos);
    ReplaceCases(s, search, replace, pos);
    ReplaceCases(p + s, search, replace, |p| + pos);
    var at := Find(s, search, pos);
    if at == -1 {
      ShiftedSlice(p, s, pos, |s|);
    } else {
      ShiftedSlice(p, s, pos, at);
      ReplaceShift(p, s, search, replace, at + |search|);
    }
  }

  lemma ShiftedSlice(p: string, s: string, i: nat, j: nat)
    requires i <= j <= |s|
    ensures (p + s)[|p| + i..|p| + j] == s[i..j] && (p + s)[|p| + i..] == s[i..] && s[i..|s|] == s[i..]
  {
  }

  /** The two cases of `ReplaceFrom`, spelt out. */
  lemma ReplaceCases(s: string, search: string, replace: string, pos: nat)
    requires |search| > 0 && pos <= |s|
    ensures var at := Find(s, search, pos);
      if at == -1 then ReplaceFrom(s, search, replace, pos) == s[pos..]
      else pos <= at && at + |search| <= |s|
           && ReplaceFrom(s, search, replace, pos) == s[pos..at] + replace + ReplaceFrom(s, search, replace, at + |search|)
  {
  }

  lemma FindWithin(s: string, d: string, from: nat)
    requires from <= |s|
    ensures Find(s, d, from) == -1 || (from <= Find(s, d, from) && Find(s, d, from) + |d| <= |s|)
  {
  }

  /** `string.replace`. */
  function Spliced(r: string, at: nat, length: nat, replace: string): (next: string)
    requires at + length <= |r|
    ensures |next| == |r| - length + |replace|
  {
    r[..at] + replace + r[at + length..]
  }

  /** One replacement: the part before it is final, the part behind it is left as it was. */
  lemma ReplaceOnce(r: string, search: string, replace: string, pos: nat, at: nat)
    requires |search| > 0 && pos <= |r| && at == Find(r, search, pos)
    ensures pos <= at && at + |search| <= |r|
    ensures var next := Spliced(r, at, |search|, replace);
      at + |replace| <= |next|
      && next[..at + |replace|] + ReplaceFrom(next, search, replace, at + |replace|) == r[..pos] + ReplaceFrom(r, search, replace, pos)
  {
    hide Find, OccursAt, ReplaceFrom;
    ReplaceCases(r, search, replace, pos);
    var head, tail, front := r[..at + |search|], r[at + |search|..], r[..at] + replace;
    assert r == head + tail;
    ReplaceShift(head, tail, search, replace, 0);
    ReplaceShift(front, tail, search, replace, 0);
    Rearranged(r, replace, ReplaceFrom(tail, search, replace, 0), tail, pos, at);
  }

  lemma Rearranged(r: string, replace: string, rest: string, tail: string, pos: nat, at: nat)
    requires pos <= at <= |r|
    ensures (r[..at] + replace + tail)[..at + |replace|] == r[..at] + replace
    ensures r[..at] + replace + rest == r[..pos] + (r[pos..at] + replace + rest)
  {
    assert r[..at] == r[..pos] + r[pos..at];
  }

  /** `replaceStrings`: in place, going on behind what was put in, so that a
      replacement containing the search text is not searched again. */
  method ReplaceStrings(s: string, search: string, replace: string) returns (r: string)
    ensures r == if search == "" then s else Combine(Split(s, search), replace)
  {
    hide Find, OccursAt, ReplaceFrom, Spliced, Combine, Split;
    if search == "" {
      return s;
    }
    r := s;
    var pos := 0;
    var at := Find(r, search, pos);
    ghost var goal := ReplaceFrom(s, search, replace, 0);
    WholeString(r, goal);
    while at != -1
      invariant 0 <= pos <= |r| && at == Find(r, search, pos)
      invariant r[..pos] + ReplaceFrom(r, search, replace, pos) == goal
      decreases |r| - pos
    {
      ReplaceOnce(r, search, replace, pos, at);
      r := Spliced(r, at, |search|, replace);
      pos := at + |replace|;
      at := Find(r, search, pos);
    }
    ReplaceCases(r, search, replace, pos);
    assert r[..pos] + r[pos..] == r;
    ReplaceIsCombined(s, search, replace);
  }

  lemma WholeString(r: string, t: string)
    ensures r[..0] + t == t
  {
  }

  lemma ReplaceIsCombined(s: string, search: string, replace: string)
    requires |search| > 0
    ensures ReplaceFrom(s, search, replace, 0) == Combine(Split(s, search), replace)
  {
    ReplaceCombines(s, search, replace, 0);
    if s == "" {
      assert Find(s, search, 0) == -1;
    }
  }

  lemma {:induction false} ReplaceCombines(s: string, search: string, replace: string, pos: nat)
    requires |search| > 0 && pos <= |s|
    ensures ReplaceFrom(s, search, replace, pos) == Combine(SplitFrom(s, search, pos), replace)
    decreases |s| - pos
  {
    hide Find, OccursAt;
    FindWithin(s, search, pos);
    var at := Find(s, search, pos);
    if at != -1 {
      ReplaceCombines(s, search, replace, at + |search|);
      CombineCons(s[pos..at], SplitFrom(s, search, at + |search|), replace);
    }
  }

  lemma CombineCons(part: string, parts: seq<string>, d: string)
    requires |parts| > 0
    ensures Combine([part] + parts, d) == part + d + Combine(parts, d)
  {
    assert ([part] + parts)[1..] == parts;
  }

  /** Splitting and combining with one delimiter restores the string. */
  lemma SplitCombine(s: string, d: string)
    ensures Combine(Split(s, d), d) == s
  {
    if d != "" && s != "" {
      SplitCombineFrom(s, d, 0);
    }
  }

  lemma {:induction false} SplitCombineFrom(s: string, d: string, start: nat)
    requires |d| > 0 && start <= |s|
    ensures Combine(SplitFrom(s, d, start), d) == s[start..]
    decreases |s| - start
  {
    hide Find, OccursAt, Combine;
    var end := Find(s, d, start);
    if end == -1 {
      CombineOne(s[start..], d);
    } else {
      FoundPieces(s, d, start, end);
      SplitCombineFrom(s, d, end + |d|);
      CombineCons(s[start..end], SplitFrom(s, d, end + |d|), d);
    }
  }

  lemma CombineOne(part: string, d: string)
    ensures Combine([part], d) == part
  {
  }

  lemma FoundPieces(s: string, d: string, start: nat, end: nat)
    requires start <= |s| && end == Find(s, d, start)
    ensures start <= end && end + |d| <= |s| && s[start..] == s[start..end] + d + s[end + |d|..]
  {
    assert s[start..] == s[start..end] + s[end..end + |d|] + s[end + |d|..];
  }

  /** No piece contains the delimiter. */
  lemma PiecesAreClean(s: string, d: string, k: nat, i: nat)
    requires |d| > 0 && k < |Split(s, d)|
    ensures !OccursAt(Split(s, d)[k], d, i)
  {
    if s != "" {
      PiecesFrom(s, d, 0, k, i);
    }
  }

  lemma {:induction false} PiecesFrom(s: string, d: string, start: nat, k: nat, i: nat)
    requires |d| > 0 && start <= |s| && k < |SplitFrom(s, d, start)|
    ensures !OccursAt(SplitFrom(s, d, start)[k], d, i)
    decreases |s| - start
  {
    var end := Find(s, d, start);
    if k > 0 {
      PiecesFrom(s, d, end + |d|, k - 1, i);
    } else {
      assert s[start..] == s[start..|s|];
      CleanPiece(s, d, start, if end == -1 then |s| else end, i);
    }
  }

  lemma CleanPiece(s: string, d: string, start: nat, stop: nat, i: nat)
    requires |d| > 0 && start <= stop <= |s| && forall j :: start <= j < stop ==> !OccursAt(s, d, j)
    ensures !OccursAt(s[start..stop], d, i)
  {
    var piece := s[start..stop];
    if OccursAt(piece, d, i) {
      var there := s[start + i..start + i + |d|];
      forall k | 0 <= k < |d| ensures there[k] == d[k] {
        assert piece[i + k] == piece[i..i + |d|][k];
      }
      assert there == d;
      assert OccursAt(s, d, start + i);
    }
  }
}