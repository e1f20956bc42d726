/** The PHP string primitives the engine is built from: strpos, str_replace,
    substr and substr_replace, over strings modelled as sequences of characters. */
module Text {

  datatype Option<T> = None | Some(value: T)

  /** `pat` occurs in `s` starting at index `i`. */
  predicate Occurs(s: string, pat: string, i: int)
  {
    0 <= i && i + |pat| <= |s| && s[i..i + |pat|] == pat
  }

  /** `s` contains the character `c` nowhere. */
  predicate Lacks(s: string, c: char)
  {
    forall i :: 0 <= i < |s| ==> s[i] != c
  }

  /** Three pieces without `c` make a text without `c`. */
  lemma {:induction false} LacksJoin(a: string, b: string, d: string, c: char)
    requires Lacks(a, c) && Lacks(b, c) && Lacks(d, c)
    ensures Lacks(a + b + d, c)
  {
    var s := a + b + d;
    forall i | 0 <= i < |s|
      ensures s[i] != c
    {
      if i < |a| {
        assert s[i] == a[i];
      } else if i < |a| + |b| {
        assert s[i] == b[i - |a|];
      } else {
        assert s[i] == d[i - |a| - |b|];
      }
    }
  }

  /** PHP's strpos(s, pat, from): the leftmost occurrence of `pat` at or after
      `from`; false (here None) when there is none, also when `from` lies past
      the end of `s`. */
  function IndexOf(s: string, pat: string, from: nat): (r: Option<nat>)
    ensures r.Some? ==> from <= r.value && Occurs(s, pat, r.value)
    ensures r.Some? ==> forall j :: from <= j < r.value ==> !Occurs(s, pat, j)
    ensures r.None? ==> forall j :: from <= j ==> !Occurs(s, pat, j)
    decreases |s| - from
  {
    if from + |pat| > |s| then None
    else if s[from..from + |pat|] == pat then Some(from)
    else IndexOf(s, pat, from + 1)
  }

  /** The first occurrence at or after `from` determines strpos uniquely. */
  lemma {:induction false} IndexOfIs(s: string, pat: string, from: nat, k: nat)
    requires from <= k && Occurs(s, pat, k)
    requires forall j :: from <= j < k ==> !Occurs(s, pat, j)
    ensures IndexOf(s, pat, from) == Some(k)
  {
  }

  /** strpos finds nothing at or after `from`. */
  lemma {:induction false} IndexOfNone(s: string, pat: string, from: nat)
    requires forall j :: from <= j ==> !Occurs(s, pat, j)
    ensures IndexOf(s, pat, from) == None
  {
  }

  /** A pattern that begins with a character `s` lacks at or after `from`
      (up to `upto`) cannot occur in that stretch. */
  lemma {:induction false} NoOccurrenceWithout(s: string, pat: string, from: nat, upto: nat)
    requires |pat| > 0 && upto <= |s|
    requires forall i :: from <= i < upto ==> s[i] != pat[0]
    ensures forall j :: from <= j < upto ==> !Occurs(s, pat, j)
  {
    forall j | from <= j < upto
      ensures !Occurs(s, pat, j)
    {
      if j + |pat| <= |s| {
        assert s[j..j + |pat|][0] == s[j];
      }
    }
  }

  /** Occurrences in s[1..] are the occurrences in `s` one place later. */
  lemma {:induction false} ShiftOccurs(s: string, pat: string, j: nat)
    requires |s| > 0
    ensures Occurs(s[1..], pat, j) <==> Occurs(s, pat, j + 1)
  {
    if j + |pat| <= |s| - 1 {
      assert s[1..][j..j + |pat|] == s[j + 1..j + 1 + |pat|];
    }
  }

  /** Behind a prefix lacking the pattern's first character, occurrences
      are those of the rest, shifted by the prefix's length. */
  lemma {:induction false} OccursBehind(p: string, s: string, pat: string, j: nat)
    requires |pat| > 0 && forall i :: 0 <= i < |p| ==> p[i] != pat[0]
    ensures Occurs(p + s, pat, j) <==> (|p| <= j && Occurs(s, pat, j - |p|))
  {
    var w := p + s;
    if j < |p| && j + |pat| <= |w| {
      assert w[j..j + |pat|][0] == p[j];
    }
    if |p| <= j && j + |pat| <= |w| {
      assert w[j..j + |pat|] == s[j - |p|..j - |p| + |pat|];
    }
  }

  /** Moves an index found in a suffix to the whole text. */
  function Shifted(k: Option<nat>, n: nat): Option<nat>
  {
    match k
    case None => None
    case Some(i) => Some(i + n)
  }

  /** strpos over a prefix lacking the pattern's first character finds what
      it finds in the rest, shifted. */
  lemma {:induction false} IndexOfBehind(p: string, s: string, pat: string)
    requires |pat| > 0 && forall i :: 0 <= i < |p| ==> p[i] != pat[0]
    ensures IndexOf(p + s, pat, 0) == Shifted(IndexOf(s, pat, 0), |p|)
  {
    forall j: nat
      ensures Occurs(p + s, pat, j) <==> (|p| <= j && Occurs(s, pat, j - |p|))
    {
      OccursBehind(p, s, pat, j);
    }
    match IndexOf(s, pat, 0)
    case None =>
      IndexOfNone(p + s, pat, 0);
    case Some(k) =>
      IndexOfIs(p + s, pat, 0, k + |p|);
  }

  /** The same, for an occurrence found at `k`: it is found at `wk`. */
  lemma {:induction false} IndexOfBehindAt(p: string, s: string, pat: string, k: nat, wk: nat)
    requires |pat| > 0 && forall i :: 0 <= i < |p| ==> p[i] != pat[0]
    requires IndexOf(s, pat, 0) == Some(k) && wk == k + |p|
    ensures IndexOf(p + s, pat, 0) == Some(wk)
  {
    IndexOfBehind(p, s, pat);
  }

  /** A pattern never occurs in text lacking its first character. */
  lemma {:induction false} NoOccurrenceLacking(s: string, pat: string)
    requires |pat| > 0 && Lacks(s, pat[0])
    ensures forall j :: 0 <= j ==> !Occurs(s, pat, j)
  {
    forall j | 0 <= j
      ensures !Occurs(s, pat, j)
    {
      if j + |pat| <= |s| {
        assert s[j..j + |pat|][0] == s[j];
      }
    }
  }

  /** A one-character pattern occurs exactly where its character stands. */
  lemma {:induction false} CharOccurs(s: string, c: char, i: nat)
    requires i < |s|
    ensures Occurs(s, [c], i) <==> s[i] == c
  {
    assert s[i..i + 1] == [s[i]];
  }

  /** strpos(s, c) === false exactly when `s` lacks the character. */
  lemma {:induction false} IndexOfChar(s: string, c: char)
    ensures IndexOf(s, [c], 0).None? <==> Lacks(s, c)
  {
    if Lacks(s, c) {
      NoOccurrenceLacking(s, [c]);
      IndexOfNone(s, [c], 0);
    } else {
      var i :| 0 <= i < |s| && s[i] == c;
      assert s[i..i + 1] == [c];
      assert Occurs(s, [c], i);
    }
  }

  /** strpos from an offset inside the second part of a text searches that
      part alone. */
  lemma {:induction false} IndexOfFrom(p: string, u: string, pat: string, k: nat, wk: nat)
    requires wk == |p| + k
    ensures IndexOf(p + u, pat, wk) == Shifted(IndexOf(u, pat, k), |p|)
  {
    var w := p + u;
    match IndexOf(u, pat, k)
    case None =>
      forall i | wk <= i
        ensures !Occurs(w, pat, i)
      {
        OccursAfter(p, u, pat, i - |p|, i);
      }
      IndexOfNone(w, pat, wk);
    case Some(q) =>
      forall i | wk <= i < q + |p|
        ensures !Occurs(w, pat, i)
      {
        OccursAfter(p, u, pat, i - |p|, i);
      }
      OccursAfter(p, u, pat, q, q + |p|);
      IndexOfIs(w, pat, wk, q + |p|);
  }

  /** The same, for a search that finds its pattern at `q`. */
  lemma {:induction false} IndexOfFromAt(p: string, u: string, pat: string, k: nat, wk: nat, q: nat, wq: nat)
    requires wk == |p| + k && wq == |p| + q
    requires IndexOf(u, pat, k) == Some(q)
    ensures IndexOf(p + u, pat, wk) == Some(wq)
  {
    IndexOfFrom(p, u, pat, k, wk);
  }

  /** Behind a prefix, an occurrence at `wj` is one at `j` in the rest. */
  lemma {:induction false} OccursAfter(p: string, u: string, pat: string, j: nat, wj: nat)
    requires wj == |p| + j
    ensures Occurs(p + u, pat, wj) <==> Occurs(u, pat, j)
  {
    if wj + |pat| <= |p + u| {
      assert (p + u)[wj..wj + |pat|] == u[j..j + |pat|];
    }
  }


  /** No occurrence of `pat` starts before index `k`. */
  predicate NoneBefore(s: string, pat: string, k: nat)
  {
    forall j :: 0 <= j < k ==> !Occurs(s, pat, j)
  }

  /** A piece in front of a text: when no occurrence starts inside the
      piece, and none starts in the text before `k`, none starts before the
      piece's length plus `k`. */
  lemma {:induction false} NoneBeforeBehind(t: string, w: string, pat: string, k: nat, wk: nat)
    requires NoneBefore(t + w, pat, |t|) && NoneBefore(w, pat, k) && wk == |t| + k
    ensures NoneBefore(t + w, pat, wk)
  {
    forall j | |t| <= j < wk
      ensures !Occurs(t + w, pat, j)
    {
      OccursAfter(t, w, pat, j - |t|, j);
    }
  }

  /** A piece in front of a text in which the pattern does not occur: when
      none starts inside the piece, none occurs in the whole. */
  lemma {:induction false} NoneThrough(t: string, w: string, pat: string)
    requires NoneBefore(t + w, pat, |t|) && NoneBefore(w, pat, |w|)
    ensures NoneBefore(t + w, pat, |t + w|)
  {
    NoneBeforeBehind(t, w, pat, |w|, |t + w|);
  }

  /** strpos finds nothing in a text where no occurrence starts. */
  lemma {:induction false} NoneAnywhere(s: string, pat: string)
    requires |pat| > 0 && NoneBefore(s, pat, |s|)
    ensures IndexOf(s, pat, 0).None?
  {
    IndexOfNone(s, pat, 0);
  }

  /** No occurrence starts inside a piece lacking the pattern's first
      character. */
  lemma {:induction false} NoneInLacking(t: string, w: string, pat: string)
    requires |pat| > 0 && Lacks(t, pat[0])
    ensures NoneBefore(t + w, pat, |t|)
  {
    NoOccurrenceWithout(t + w, pat, 0, |t|);
  }

  /** No occurrence starts inside a piece that lacks the pattern's first
      character after its own first one and differs from the pattern at
      index `d`. */
  lemma {:induction false} NoneInTag(t: string, w: string, pat: string, d: nat)
    requires 0 < d < |t| && d < |pat| && t[d] != pat[d] && Lacks(t[1..], pat[0])
    ensures NoneBefore(t + w, pat, |t|)
  {
    var s := t + w;
    if |pat| <= |s| {
      assert s[..|pat|][d] == t[d];
    }
    forall i | 1 <= i < |t|
      ensures s[i] != pat[0]
    {
      assert s[i] == t[1..][i - 1];
    }
    NoOccurrenceWithout(s, pat, 1, |t|);
  }

  /** PHP's str_replace(pat, rep, s) for a non-empty search string: every
      non-overlapping occurrence, scanned from left to right, becomes `rep`. */
  function ReplaceAll(s: string, pat: string, rep: string): string
    requires |pat| > 0
    decreases |s|
  {
    if |s| < |pat| then s
    else if s[..|pat|] == pat then rep + ReplaceAll(s[|pat|..], pat, rep)
    else [s[0]] + ReplaceAll(s[1..], pat, rep)
  }

  /** With no occurrence of the search string, str_replace changes nothing. */
  lemma {:induction false} ReplaceAllAbsent(s: string, pat: string, rep: string)
    requires |pat| > 0
    requires forall j :: 0 <= j ==> !Occurs(s, pat, j)
    ensures ReplaceAll(s, pat, rep) == s
    decreases |s|
  {
    if |s| >= |pat| {
      assert !Occurs(s, pat, 0);
      forall j | 0 <= j
        ensures !Occurs(s[1..], pat, j)
      {
        ShiftOccurs(s, pat, j);
      }
      ReplaceAllAbsent(s[1..], pat, rep);
      assert s == [s[0]] + s[1..];
    }
  }

  /** ReplaceAllFirst, with the end of the first occurrence given. */
  lemma {:induction false} ReplaceAllFirstAt(s: string, pat: string, rep: string, k: nat, w: nat)
    requires |pat| > 0 && Occurs(s, pat, k) && w == k + |pat|
    requires forall j :: 0 <= j < k ==> !Occurs(s, pat, j)
    ensures ReplaceAll(s, pat, rep) == s[..k] + rep + ReplaceAll(s[w..], pat, rep)
  {
    ReplaceAllFirst(s, pat, rep, k);
  }

  /** The leftmost occurrence of the search string is replaced, the text
      before it is kept, and the scan resumes right after it. Together with
      ReplaceAllAbsent this determines str_replace completely. */
  lemma {:induction false} ReplaceAllFirst(s: string, pat: string, rep: string, k: nat)
    requires |pat| > 0 && Occurs(s, pat, k)
    requires forall j :: 0 <= j < k ==> !Occurs(s, pat, j)
    ensures ReplaceAll(s, pat, rep) == s[..k] + rep + ReplaceAll(s[k + |pat|..], pat, rep)
    decreases k
  {
    if k == 0 {
      ReplaceAllAtStart(s, pat, rep);
    } else {
      var t, k' := s[1..], k - 1;
      FirstInTail(s, pat, k, k');
      ReplaceAllFirst(t, pat, rep, k');
      ReplaceAllSkip(s, pat, rep);
      FirstJoin(s, t, pat, rep, k, k');
    }
  }

  /** An occurrence at the very start is replaced first. */
  lemma {:induction false} ReplaceAllAtStart(s: string, pat: string, rep: string)
    requires |pat| > 0 && Occurs(s, pat, 0)
    ensures ReplaceAll(s, pat, rep) == s[..0] + rep + ReplaceAll(s[0 + |pat|..], pat, rep)
  {
    assert s[..|pat|] == pat;
    assert s[..0] == [];
  }


  /** Past a first character that starts no occurrence, the first
      occurrence is one place earlier. */
  lemma {:induction false} FirstInTail(s: string, pat: string, k: nat, k': nat)
    requires |pat| > 0 && Occurs(s, pat, k) && k == k' + 1
    requires forall j :: 0 <= j < k ==> !Occurs(s, pat, j)
    ensures Occurs(s[1..], pat, k')
    ensures forall j :: 0 <= j < k' ==> !Occurs(s[1..], pat, j)
  {
    ShiftOccurs(s, pat, k');
    forall j | 0 <= j < k'
      ensures !Occurs(s[1..], pat, j)
    {
      ShiftOccurs(s, pat, j);
    }
  }

  /** str_replace keeps a first character that starts no occurrence. */
  lemma {:induction false} ReplaceAllSkip(s: string, pat: string, rep: string)
    requires |pat| > 0 && |pat| < |s| && !Occurs(s, pat, 0)
    ensures ReplaceAll(s, pat, rep) == [s[0]] + ReplaceAll(s[1..], pat, rep)
  {
  }

  lemma {:induction false} FirstJoin(s: string, t: string, pat: string, rep: string, k: nat, k': nat)
    requires |pat| > 0 && k == k' + 1 && k + |pat| <= |s| && t == s[1..]
    requires ReplaceAll(s, pat, rep) == [s[0]] + ReplaceAll(t, pat, rep)
    requires ReplaceAll(t, pat, rep) == t[..k'] + rep + ReplaceAll(t[k' + |pat|..], pat, rep)
    ensures ReplaceAll(s, pat, rep) == s[..k] + rep + ReplaceAll(s[k + |pat|..], pat, rep)
  {
    assert t[k' + |pat|..] == s[k + |pat|..];
    assert [s[0]] + t[..k'] == s[..k];
  }



  /** A prefix without the search string's first character passes through
      str_replace unchanged. */
  lemma {:induction false} ReplaceAllKeepsPrefix(p: string, s: string, pat: string, rep: string)
    requires |pat| > 0
    requires forall i :: 0 <= i < |p| ==> p[i] != pat[0]
    ensures ReplaceAll(p + s, pat, rep) == p + ReplaceAll(s, pat, rep)
    decreases |p|
  {
    if p == [] {
      assert p + s == s;
    } else {
      var w := p + s;
      assert w[1..] == p[1..] + s;
      ReplaceAllKeepsPrefix(p[1..], s, pat, rep);
      if |w| >= |pat| {
        assert w[..|pat|][0] == p[0];
        calc {
          ReplaceAll(w, pat, rep);
          [w[0]] + ReplaceAll(w[1..], pat, rep);
          [p[0]] + (p[1..] + ReplaceAll(s, pat, rep));
          { assert p == [p[0]] + p[1..]; }
          p + ReplaceAll(s, pat, rep);
        }
      } else {
        assert ReplaceAll(s, pat, rep) == s;
      }
    }
  }

  /** PHP's substr(s, start, len) for a start inside or at the end of `s`:
      a negative `len` leaves that many characters off the end, and a range
      that ends before it starts gives the empty string. */
  function Substr(s: string, start: nat, len: int): (r: string)
    ensures |r| <= |s|
    ensures start + len <= |s| && 0 <= len ==> r == s[start..start + len]
  {
    if start > |s| then ""
    else if len >= 0 then s[start..if start + len <= |s| then start + len else |s|]
    else if |s| + len < start then ""
    else s[start..|s| + len]
  }

  /** PHP's substr_replace(s, rep, pos, len) for non-negative `pos` and `len`:
      a position past the end appends, and a length running past the end is
      cut at the end. */
  function Splice(s: string, rep: string, pos: nat, len: nat): (r: string)
    ensures pos + len <= |s| ==> r == s[..pos] + rep + s[pos + len..]
    ensures pos + len <= |s| ==> |r| == |s| - len + |rep|
  {
    var p := if pos <= |s| then pos else |s|;
    var l := if p + len <= |s| then len else |s| - p;
    s[..p] + rep + s[p + l..]
  }

  /** A concatenation of five pieces, regrouped behind the first. */
  lemma {:induction false} Regroup(a: string, o: string, b: string, c: string, rest: string)
    ensures a + o + b + c + rest == a + (o + b + c + rest)
  {
  }

  /** A concatenation of four pieces, regrouped behind the first. */
  lemma {:induction false} Regroup4(o: string, b: string, c: string, rest: string)
    ensures o + b + c + rest == o + (b + c + rest)
  {
  }

  /** An occurrence stays one behind a prefix, at the shifted position. */
  lemma {:induction false} OccursShifted(p: string, s: string, pat: string, k: nat, wk: nat)
    requires Occurs(s, pat, k) && wk == k + |p|
    ensures Occurs(p + s, pat, wk)
  {
    assert (p + s)[wk..wk + |pat|] == s[k..k + |pat|];
  }

  /** Behind a prefix, a splice at the shifted position keeps the prefix. */
  lemma {:induction false} SpliceBehind(p: string, s: string, rep: string, pos: nat, len: nat, wpos: nat)
    requires pos + len <= |s| && wpos == pos + |p|
    ensures p + Splice(s, rep, pos, len) == Splice(p + s, rep, wpos, len)
  {
    var w := p + s;
    assert w[..wpos] == p + s[..pos];
    assert w[wpos + len..] == s[pos + len..];
  }

  /** Behind a prefix, a substring at the shifted position is the same. */
  lemma {:induction false} SubstrBehind(p: string, s: string, start: nat, len: nat, wstart: nat, wlen: nat)
    requires start + len <= |s| && wstart == start + |p| && wlen == len
    ensures Substr(p + s, wstart, wlen) == Substr(s, start, len)
  {
    assert (p + s)[wstart..wstart + len] == s[start..start + len];
  }

  /** The characters of `s` with every `c` removed. */
  function Without(s: string, c: char): (r: string)
    ensures Lacks(r, c)
    ensures |r| <= |s|
  {
    if s == [] then []
    else (if s[0] == c then [] else [s[0]]) + Without(s[1..], c)
  }

  /** str_replace on a text holding its search string once, after text
      in which it cannot start and before text in which it cannot start. */
  lemma {:induction false} PlaceholderOnce(a: string, pat: string, c: string, repl: string)
    requires |pat| > 0 && pat[0] == '{' && Lacks(a, '{') && Lacks(c, '{')
    ensures ReplaceAll(a + (pat + c), pat, repl) == a + repl + c
  {
    var s := a + (pat + c);
    var k := |a|;
    forall j | 0 <= j < k
      ensures !Occurs(s, pat, j)
    {
      assert s[j] == a[j];
    }
    assert s[k..k + |pat|] == pat;
    ReplaceAllFirst(s, pat, repl, k);
    assert s[..k] == a;
    assert s[k + |pat|..] == c;
    NoOccurrenceLacking(c, pat);
    ReplaceAllAbsent(c, pat, repl);
  }
}
