/** The ungreedy pattern searches the engine runs with preg_match_all:
    `{(L:.*)}` over the loaded text (templatte.php:667), `{(URL:.*)T}` in
    create_urls (templatte.php:619) and `<(if:.*T)>` in get
    (templatte.php:496), where T is the security token. Each is
    `lead(head.*gtail)after` with the /U flag, so `.*` takes the fewest
    characters other than a line feed that let the rest match. */
module Scan {
  import opened Text

  /** Where the pattern matches when it starts at s[0]: the index at which
      `gtail` begins. */
  function MatchAt(s: string, lead: string, head: string, gtail: string, after: string): (r: Option<nat>)
    requires |gtail + after| > 0
    ensures r.Some? ==> |lead| + |head| <= r.value && r.value + |gtail| + |after| <= |s|
    ensures r.Some? ==> s[..|lead| + |head|] == lead + head && Occurs(s, gtail + after, r.value)
    ensures r.Some? ==> Lacks(s[|lead| + |head|..r.value], '\n')
  {
    var j := |lead| + |head|;
    if |s| < j || s[..j] != lead + head then None
    else
      match IndexOf(s, gtail + after, j)
      case None => None
      case Some(p) => if Lacks(s[j..p], '\n') then Some(p) else None
  }

  /** The first capture groups of all matches, left to right; after a match
      the search resumes behind it. */
  function Captures(s: string, lead: string, head: string, gtail: string, after: string): (r: seq<string>)
    requires |lead| > 0 && |gtail + after| > 0
    ensures forall i :: 0 <= i < |r| ==> |head| + |gtail| <= |r[i]| && r[i][..|head|] == head && r[i][|r[i]| - |gtail|..] == gtail
    decreases |s|
  {
    if s == [] then []
    else
      match MatchAt(s, lead, head, gtail, after)
      case Some(p) =>
        var c := s[|lead|..p + |gtail|];
        CaptureShape(s, lead, head, gtail, after, p, c);
        [c] + Captures(s[p + |gtail| + |after|..], lead, head, gtail, after)
      case None => Captures(s[1..], lead, head, gtail, after)
  }

  /** A capture starts with the group's head and ends with its tail. */
  lemma {:induction false} CaptureShape(s: string, lead: string, head: string, gtail: string, after: string, p: nat, c: string)
    requires |gtail + after| > 0 && MatchAt(s, lead, head, gtail, after) == Some(p)
    requires |lead| <= p + |gtail| <= |s| && c == s[|lead|..p + |gtail|]
    ensures |head| + |gtail| <= |c| && c[..|head|] == head && c[|c| - |gtail|..] == gtail
  {
    assert c[..|head|] == s[|lead|..|lead| + |head|] == (lead + head)[|lead|..];
    assert c[|c| - |gtail|..] == s[p..p + |gtail|] == (gtail + after)[..|gtail|];
  }

  /** Where the pattern's lead and head do not begin, the search moves on
      by one character. */
  lemma {:induction false} CapturesSkip(s: string, lead: string, head: string, gtail: string, after: string)
    requires |lead| > 0 && |gtail + after| > 0 && |s| > 0
    requires |s| < |lead| + |head| || s[..|lead| + |head|] != lead + head
    ensures Captures(s, lead, head, gtail, after) == Captures(s[1..], lead, head, gtail, after)
  {
  }

  /** Text before which the lead cannot start adds no match. */
  lemma {:induction false} CapturesBehind(p: string, s: string, lead: string, head: string, gtail: string, after: string)
    requires |lead| > 0 && |gtail + after| > 0 && Lacks(p, lead[0])
    ensures Captures(p + s, lead, head, gtail, after) == Captures(s, lead, head, gtail, after)
    decreases |p|
  {
    if p != [] {
      var w := p + s;
      assert w[0] == p[0];
      assert MatchAt(w, lead, head, gtail, after).None? by {
        if |w| >= |lead| + |head| {
          assert w[..|lead| + |head|][0] == p[0];
          assert (lead + head)[0] == lead[0];
        }
      }
      assert w[1..] == p[1..] + s;
      CapturesBehind(p[1..], s, lead, head, gtail, after);
    } else {
      assert p + s == s;
    }
  }

  /** Text in which the lead never occurs holds no match. */
  lemma {:induction false} NoCaptures(s: string, lead: string, head: string, gtail: string, after: string)
    requires |lead| > 0 && |gtail + after| > 0 && Lacks(s, lead[0])
    ensures Captures(s, lead, head, gtail, after) == []
  {
    CapturesBehind(s, [], lead, head, gtail, after);
    assert s + [] == s;
  }

  /** Where the pattern matches in `lead + head + u`: at the first
      occurrence of `gtail + after` in `u`, when no line feed precedes it. */
  lemma {:induction false} MatchAtBehind(u: string, lead: string, head: string, gtail: string, after: string)
    requires |gtail + after| > 0
    ensures MatchAt(lead + head + u, lead, head, gtail, after)
      == match IndexOf(u, gtail + after, 0)
         case None => None
         case Some(q) => if Lacks(u[..q], '\n') then Some(|lead| + |head| + q) else None
  {
    var p := lead + head;
    var s := p + u;
    var j := |lead| + |head|;
    var tail := gtail + after;
    assert s[..j] == p;
    match IndexOf(u, tail, 0)
    case None =>
      IndexOfFrom(p, u, tail, 0, j);
      MatchAtFrom(s, lead, head, gtail, after, j);
      assert MatchAt(s, lead, head, gtail, after) == None;
    case Some(q) =>
      var wq := j + q;
      IndexOfFromAt(p, u, tail, 0, j, q, wq);
      assert s[j..wq] == u[..q];
      MatchAtFrom(s, lead, head, gtail, after, j);
      assert MatchAt(s, lead, head, gtail, after) == if Lacks(u[..q], '\n') then Some(wq) else None;
  }

  /** MatchAt, once the lead and head are known to start the text. */
  lemma {:induction false} MatchAtFrom(s: string, lead: string, head: string, gtail: string, after: string, j: nat)
    requires |gtail + after| > 0 && j == |lead| + |head| && j <= |s| && s[..j] == lead + head
    ensures MatchAt(s, lead, head, gtail, after)
      == match IndexOf(s, gtail + after, j)
         case None => None
         case Some(p) => if Lacks(s[j..p], '\n') then Some(p) else None
  {
  }

  /** One match at the start: `lead`, `head`, a middle `m` without a line
      feed in which `gtail + after` does not begin, then `gtail + after`.
      It is captured as `head + m + gtail`, and the search goes on behind it. */
  lemma {:induction false} CapturesFirst(m: string, rest: string, lead: string, head: string, gtail: string, after: string)
    requires |lead| > 0 && |gtail + after| > 0 && Lacks(m, '\n')
    requires forall k :: 0 <= k < |m| ==> !Occurs(m + (gtail + after), gtail + after, k)
    ensures Captures(lead + head + (m + (gtail + after) + rest), lead, head, gtail, after)
      == [head + m + gtail] + Captures(rest, lead, head, gtail, after)
  {
    var u := m + (gtail + after) + rest;
    FirstAfterMiddle(m, gtail + after, rest);
    MatchAtBehind(u, lead, head, gtail, after);
    PiecesOf(lead, head, m, gtail, after, rest);
    CapturesAt(lead + head + u, |lead| + |head| + |m|, head + m + gtail, rest, lead, head, gtail, after);
  }

  lemma {:induction false} FirstAfterMiddle(m: string, tail: string, rest: string)
    requires |tail| > 0
    requires forall k :: 0 <= k < |m| ==> !Occurs(m + tail, tail, k)
    ensures IndexOf(m + tail + rest, tail, 0) == Some(|m|)
    ensures (m + tail + rest)[..|m|] == m
  {
    var x := m + tail;
    var u := x + rest;
    forall k | 0 <= k < |m|
      ensures !Occurs(u, tail, k)
    {
      assert !Occurs(x, tail, k);
      assert u[k..k + |tail|] == x[k..k + |tail|];
    }
    assert u[|m|..|m| + |tail|] == tail;
    IndexOfIs(u, tail, 0, |m|);
  }

  lemma {:induction false} PiecesOf(lead: string, head: string, m: string, gtail: string, after: string, rest: string)
    ensures var s := lead + head + (m + (gtail + after) + rest);
      s[|lead|..|lead| + |head| + |m| + |gtail|] == head + m + gtail
      && s[|lead| + |head| + |m| + |gtail| + |after|..] == rest
  {
    var s := lead + head + (m + (gtail + after) + rest);
    var k := |lead| + |head| + |m| + |gtail|;
    assert s == (lead + (head + m + gtail)) + (after + rest);
    assert s[|lead|..k] == head + m + gtail;
    assert s[k..] == after + rest;
    assert s[k + |after|..] == (after + rest)[|after|..];
  }

  lemma {:induction false} CapturesAt(s: string, p: nat, c: string, rest: string, lead: string, head: string, gtail: string, after: string)
    requires |lead| > 0 && |gtail + after| > 0
    requires MatchAt(s, lead, head, gtail, after) == Some(p)
    requires s[|lead|..p + |gtail|] == c && s[p + |gtail| + |after|..] == rest
    ensures Captures(s, lead, head, gtail, after) == [c] + Captures(rest, lead, head, gtail, after)
  {
    assert s != [];
  }
}
