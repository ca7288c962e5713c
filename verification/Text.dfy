/**
 Searching, joining and splitting strings at a character.
 */
module Text {
  import opened Wrappers

  // The first occurrence of `c`.
  function Find(s: string, c: char): (r: Option<nat>)
    ensures r.None? <==> c !in s
    ensures r.Some? ==> r.value < |s| && s[r.value] == c && c !in s[..r.value]
  {
    if s == [] then None
    else if s[0] == c then Some(0)
    else
      assert s == [s[0]] + s[1..];
      match Find(s[1..], c)
      case None => None
      case Some(i) =>
        assert s[..i + 1] == [s[0]] + s[1..][..i];
        Some(i + 1)
  }

  // The last occurrence of `c`.
  function FindLast(s: string, c: char): (r: Option<nat>)
    ensures r.None? <==> c !in s
    ensures r.Some? ==> r.value < |s| && s[r.value] == c && c !in s[r.value + 1..]
  {
    if s == [] then None
    else
      var n := |s| - 1;
      assert s == s[..n] + [s[n]];
      if s[n] == c then Some(n)
      else
        match FindLast(s[..n], c)
        case None => None
        case Some(i) =>
          assert s[i + 1..] == s[..n][i + 1..] + [s[n]];
          Some(i)
  }

  lemma {:induction false} FindUnique(before: string, c: char, after: string)
    requires c !in before
    ensures Find(before + [c] + after, c) == Some(|before|)
  {
    var s := before + [c] + after;
    if before == [] {
    } else {
      assert s[1..] == before[1..] + [c] + after;
      FindUnique(before[1..], c, after);
    }
  }

  lemma {:induction false} FindLastUnique(before: string, c: char, after: string)
    requires c !in after
    ensures FindLast(before + [c] + after, c) == Some(|before|)
  {
    var s, n := before + [c] + after, |after| - 1;
    if after == [] {
    } else {
      assert s[..|s| - 1] == before + [c] + after[..n];
      FindLastUnique(before, c, after[..n]);
    }
  }

  function Join(parts: seq<string>, c: char): string
    requires parts != []
  {
    if |parts| == 1 then parts[0] else parts[0] + [c] + Join(parts[1..], c)
  }

  function Split(s: string, c: char): (parts: seq<string>)
    ensures parts != [] && Join(parts, c) == s
    ensures forall part <- parts :: c !in part && forall d <- part :: d in s
    decreases |s|
  {
    match Find(s, c)
    case None => [s]
    case Some(i) =>
      assert s == s[..i] + [c] + s[i + 1..];
      [s[..i]] + Split(s[i + 1..], c)
  }

  lemma SplitFirst(first: string, c: char, rest: string)
    requires c !in first
    ensures Split(first + [c] + rest, c) == [first] + Split(rest, c)
  {
    var s := first + [c] + rest;
    FindUnique(first, c, rest);
    assert s[..|first|] == first && s[|first| + 1..] == rest;
  }

  // Splitting undoes joining when no part contains the separator and there is at least one part.
  lemma {:induction false} SplitJoin(parts: seq<string>, c: char)
    requires parts != [] && forall part <- parts :: c !in part
    ensures Split(Join(parts, c), c) == parts
  {
    if |parts| <= 1 {
    } else {
      var rest := Join(parts[1..], c);
      SplitJoin(parts[1..], c);
      SplitFirst(parts[0], c, rest);
    }
  }

  // A character of a joined string is the separator or a character of a part.
  lemma {:induction false} JoinHas(parts: seq<string>, c: char, d: char)
    requires parts != [] && d != c
    ensures d in Join(parts, c) <==> exists part <- parts :: d in part
  {
    if |parts| <= 1 {
    } else {
      JoinHas(parts[1..], c, d);
      assert parts == [parts[0]] + parts[1..];
    }
  }
}
