/** The conditional engine: replace_if (templatte.php:320-335) and the
    block collapse of _replace_if (templatte.php:348-375). */
module Conditional {
  import opened Text
  import opened Values

  /** The opening tag `<R>` of a rule R (the rule already carries the token). */
  function Open(r: string): string { "<" + r + ">" }

  /** The closing tag `</R>`. */
  function Close(r: string): string { "</" + r + ">" }

  /** The opening tag, shifted by `d`, runs into the start of the closing tag. */
  predicate OverlapAt(r: string, d: nat)
  {
    0 < d < |Open(r)| && Open(r)[d..] == Close(r)[..|Open(r)| - d]
  }

  /** An opening tag that a closing tag can start inside of. Only then can
      _replace_if find the closing tag before the end of the opening tag. */
  predicate TagsOverlap(r: string)
  {
    exists d :: 0 < d < |Open(r)| && OverlapAt(r, d)
  }

  /** Where the opening and the closing tag of a match lie too close, the
      tags overlap at their distance. */
  lemma {:induction false} OverlapWitness(s: string, r: string, o: nat, c: nat)
    requires Occurs(s, Open(r), o) && Occurs(s, Close(r), c) && o < c
    ensures c < o + |Open(r)| ==> OverlapAt(r, c - o)
  {
    var lo := |Open(r)|;
    if c < o + lo {
      var d := c - o;
      assert s[o..o + lo][d..] == s[c..o + lo];
      assert s[c..c + |Close(r)|][..lo - d] == s[c..o + lo];
    }
  }

  /** Without overlap, the closing tag found after an opening tag starts
      behind its end. */
  lemma {:induction false} OpenCloseApart(s: string, r: string, o: nat, c: nat)
    requires Occurs(s, Open(r), o) && Occurs(s, Close(r), c) && o < c && !TagsOverlap(r)
    ensures o + |Open(r)| <= c
  {
    OverlapWitness(s, r, o, c);
  }

  /** A rule without `<` has tags that cannot overlap. */
  lemma {:induction false} NoLtNoOverlap(r: string)
    requires Lacks(r, '<')
    ensures !TagsOverlap(r)
  {
    forall d: nat | 0 < d < |Open(r)|
      ensures !OverlapAt(r, d)
    {
      assert Open(r)[d..][0] == Open(r)[d];
      assert Close(r)[..|Open(r)| - d][0] == '<';
      if d <= |r| {
        assert Open(r)[d] == r[d - 1];
      }
    }
  }

  /** The loop condition of _replace_if: the first opening tag and the first
      closing tag of the whole text, both searched from the start, with the
      opening one first. */
  function Pair(s: string, r: string): (p: Option<(nat, nat)>)
    ensures p.Some? ==> p.value.0 < p.value.1 && Occurs(s, Open(r), p.value.0) && Occurs(s, Close(r), p.value.1)
  {
    PairOf(IndexOf(s, Open(r), 0), IndexOf(s, Close(r), 0))
  }

  /** The loop's condition holds with the opening tag at `o` and the
      closing tag at `c`. */
  predicate FoundPair(s: string, r: string, o: nat, c: nat)
  {
    Pair(s, r).Some? && Pair(s, r).value.0 == o && Pair(s, r).value.1 == c
  }

  /** Both tags found, the opening one first. */
  function PairOf(open: Option<nat>, close: Option<nat>): (p: Option<(nat, nat)>)
    ensures p.Some? ==> open == Some(p.value.0) && close == Some(p.value.1) && p.value.0 < p.value.1
  {
    match open
    case None => None
    case Some(o) =>
      match close
      case None => None
      case Some(c) => if o < c then Some((o, c)) else None
  }

  /** Both found positions moved by the same amount. */
  lemma {:induction false} PairOfShifted(open: Option<nat>, close: Option<nat>, n: nat)
    ensures PairOf(open, close).None? ==> PairOf(Shifted(open, n), Shifted(close, n)).None?
    ensures PairOf(open, close).Some? ==> PairOf(Shifted(open, n), Shifted(close, n)).Some?
    ensures PairOf(open, close).Some? ==> PairOf(Shifted(open, n), Shifted(close, n)).value.0 == PairOf(open, close).value.0 + n
    ensures PairOf(open, close).Some? ==> PairOf(Shifted(open, n), Shifted(close, n)).value.1 == PairOf(open, close).value.1 + n
  {
  }

  /** One pass of the loop body: the block from the opening tag to the end
      of the closing tag becomes the text between the tags, or nothing. */
  function Collapse(s: string, r: string, show: bool, o: nat, c: nat): string
    requires o < c
  {
    var lo := |Open(r)|;
    var content := if show then Substr(s, o + lo, c - (o + lo)) else "";
    Splice(s, content, o, c + |Close(r)| - o)
  }

  /** When the tags lie apart, one pass removes both tags, and the text
      between them too when hiding; the text gets shorter. */
  lemma {:induction false} CollapseShape(s: string, r: string, show: bool, o: nat, c: nat)
    requires Occurs(s, Open(r), o) && Occurs(s, Close(r), c) && o < c
    requires show ==> o + |Open(r)| <= c
    ensures Collapse(s, r, show, o, c)
      == s[..o] + (if show then s[o + |Open(r)|..c] else "") + s[c + |Close(r)|..]
    ensures |Collapse(s, r, show, o, c)| < |s|
  {
  }

  /** Whether a pass may show its blocks: the overlap that would let the
      loop run on never arises. */
  predicate MayCollapse(r: string, show: bool)
  {
    show ==> !TagsOverlap(r)
  }

  /** The text after _replace_if's loop: passes repeat while an opening tag
      comes before the first closing tag. */
  function CollapseIf(s: string, r: string, show: bool): (res: string)
    requires MayCollapse(r, show)
    ensures |res| <= |s|
    decreases |s|
  {
    var p := Pair(s, r);
    if p.None? then s
    else
      CollapseShrinks(s, r, show, p.value.0, p.value.1);
      CollapseIf(Collapse(s, r, show, p.value.0, p.value.1), r, show)
  }

  /** When the loop stops, no opening tag precedes the first closing tag. */
  lemma {:induction false} CollapseIfDone(s: string, r: string, show: bool)
    requires MayCollapse(r, show)
    ensures Pair(CollapseIf(s, r, show), r).None?
    decreases |s|
  {
    var p := Pair(s, r);
    if p.Some? {
      CollapseShrinks(s, r, show, p.value.0, p.value.1);
      CollapseIfDone(Collapse(s, r, show, p.value.0, p.value.1), r, show);
    }
  }

  /** Every pass the loop makes shortens the text: hiding deletes the
      region from the opening tag to the end of the closing tag, and
      showing keeps only what lies between the tags. */
  lemma {:induction false} CollapseShrinks(s: string, r: string, show: bool, o: nat, c: nat)
    requires MayCollapse(r, show)
    requires Occurs(s, Open(r), o) && Occurs(s, Close(r), c) && o < c
    ensures show ==> o + |Open(r)| <= c
    ensures |Collapse(s, r, show, o, c)| < |s|
  {
    if show {
      OpenCloseApart(s, r, o, c);
    }
  }

  /** Text without `<` holds no tags: the collapse leaves it as it is. */
  lemma {:induction false} CollapsePlain(s: string, r: string, show: bool)
    requires MayCollapse(r, show) && Lacks(s, '<')
    ensures CollapseIf(s, r, show) == s
  {
    NoOccurrenceWithout(s, Open(r), 0, |s|);
    forall j: nat | |s| <= j
      ensures !Occurs(s, Open(r), j)
    {
    }
    IndexOfNone(s, Open(r), 0);
  }

  /** Behind a prefix without `<`, the loop finds no tags where it found
      none before. */
  lemma {:induction false} PairBehindNone(p: string, s: string, r: string)
    requires Lacks(p, '<') && Pair(s, r).None?
    ensures Pair(p + s, r).None?
  {
    IndexOfBehind(p, s, Open(r));
    IndexOfBehind(p, s, Close(r));
    PairOfShifted(IndexOf(s, Open(r), 0), IndexOf(s, Close(r), 0), |p|);
  }

  /** Behind a prefix without `<`, the loop finds the same tags, shifted. */
  lemma {:induction false} PairBehindSome(p: string, s: string, r: string, o: nat, c: nat, wo: nat, wc: nat)
    requires Lacks(p, '<') && FoundPair(s, r, o, c) && wo == o + |p| && wc == c + |p|
    ensures FoundPair(p + s, r, wo, wc)
  {
    IndexOfBehind(p, s, Open(r));
    IndexOfBehind(p, s, Close(r));
    PairOfShifted(IndexOf(s, Open(r), 0), IndexOf(s, Close(r), 0), |p|);
  }


  /** The loop stops when no pair is found. */
  lemma {:induction false} CollapseIfStop(s: string, r: string, show: bool)
    requires MayCollapse(r, show) && Pair(s, r).None?
    ensures CollapseIf(s, r, show) == s
  {
  }

  /** The loop collapses the pair it finds and goes on. */
  lemma {:induction false} CollapseIfStep(s: string, r: string, show: bool, o: nat, c: nat, next: string)
    requires MayCollapse(r, show) && FoundPair(s, r, o, c)
    requires next == Collapse(s, r, show, o, c)
    ensures CollapseIf(s, r, show) == CollapseIf(next, r, show)
  {
  }

  /** Text before the first tag is kept in front of the collapsed rest. */
  lemma {:induction false} CollapseBehind(p: string, s: string, r: string, show: bool)
    requires MayCollapse(r, show) && Lacks(p, '<')
    ensures CollapseIf(p + s, r, show) == p + CollapseIf(s, r, show)
    decreases |s|
  {
    if Pair(s, r).None? {
      PairBehindNone(p, s, r);
      CollapseIfStop(s, r, show);
      CollapseIfStop(p + s, r, show);
    } else {
      var o := Pair(s, r).value.0;
      var c := Pair(s, r).value.1;
      CollapseShrinks(s, r, show, o, c);
      var s' := Collapse(s, r, show, o, c);
      CollapseBehind(p, s', r, show);
      CollapseBehindTurn(p, s, r, show, o, c, s');
    }
  }

  /** One turn of the loop behind the prefix, given the rest of the loop. */
  lemma {:induction false} CollapseBehindTurn(p: string, s: string, r: string, show: bool, o: nat, c: nat, s': string)
    requires MayCollapse(r, show) && Lacks(p, '<') && FoundPair(s, r, o, c)
    requires s' == Collapse(s, r, show, o, c)
    requires CollapseIf(p + s', r, show) == p + CollapseIf(s', r, show)
    ensures CollapseIf(p + s, r, show) == p + CollapseIf(s, r, show)
  {
    var w, wo, wc := p + s, o + |p|, c + |p|;
    CollapseFrontPair(p, s, r, show, o, c, s', wo, wc);
    CollapseIfStep(w, r, show, wo, wc, p + s');
    CollapseIfStep(s, r, show, o, c, s');
  }

  /** Behind the prefix the loop finds the shifted pair and keeps the
      prefix in front of the collapsed text. */
  lemma {:induction false} CollapseFrontPair(p: string, s: string, r: string, show: bool, o: nat, c: nat, s': string,
                                             wo: nat, wc: nat)
    requires MayCollapse(r, show) && Lacks(p, '<') && FoundPair(s, r, o, c)
    requires s' == Collapse(s, r, show, o, c) && wo == o + |p| && wc == c + |p|
    ensures FoundPair(p + s, r, wo, wc)
    ensures p + s' == Collapse(p + s, r, show, wo, wc)
  {
    PairBehindSome(p, s, r, o, c, wo, wc);
    CollapseShrinks(s, r, show, o, c);
    CollapseInFront(p, s, r, show, o, c, wo, wc);
  }


  lemma {:induction false} CollapseInFront(p: string, s: string, r: string, show: bool, o: nat, c: nat, wo: nat, wc: nat)
    requires Occurs(s, Open(r), o) && Occurs(s, Close(r), c) && o < c
    requires show ==> o + |Open(r)| <= c
    requires wo == o + |p| && wc == c + |p|
    ensures p + Collapse(s, r, show, o, c) == Collapse(p + s, r, show, wo, wc)
  {
    var len := c + |Close(r)| - o;
    var content := if show then Substr(s, o + |Open(r)|, c - (o + |Open(r)|)) else "";
    var wcontent := if show then Substr(p + s, wo + |Open(r)|, wc - (wo + |Open(r)|)) else "";
    ContentBehind(p, s, r, show, o, c, wo, wc, content, wcontent);
    CollapseIs(s, r, show, o, c, content, len);
    CollapseIs(p + s, r, show, wo, wc, wcontent, len);
    SpliceBehind(p, s, content, o, len, wo);
  }

  /** The content a pass keeps is the same behind a prefix. */
  lemma {:induction false} ContentBehind(p: string, s: string, r: string, show: bool, o: nat, c: nat, wo: nat, wc: nat, content: string, wcontent: string)
    requires show ==> o + |Open(r)| <= c <= |s|
    requires wo == o + |p| && wc == c + |p|
    requires content == if show then Substr(s, o + |Open(r)|, c - (o + |Open(r)|)) else ""
    requires wcontent == if show then Substr(p + s, wo + |Open(r)|, wc - (wo + |Open(r)|)) else ""
    ensures wcontent == content
  {
    if show {
      SubstrBehind(p, s, o + |Open(r)|, c - (o + |Open(r)|), wo + |Open(r)|, wc - (wo + |Open(r)|));
    }
  }

  /** One pass, written as the source computes it: substr of the content
      between the tags and substr_replace of the block, with the tag
      lengths. */
  lemma {:induction false} CollapseIs(s: string, r: string, show: bool, o: nat, c: nat, content: string, len: nat)
    requires o < c && len == c + |Close(r)| - o
    requires content == if show then Substr(s, o + |Open(r)|, c - (o + |Open(r)|)) else ""
    ensures Collapse(s, r, show, o, c) == Splice(s, content, o, len)
  {
  }

  /** One turn of _replace_if's loop, as the source computes it with the
      tag lengths at hand: the text shrinks and its final form is kept. */
  lemma {:induction false} CollapseTurn(s: string, r: string, show: bool, o: nat, c: nat, lo: nat, lc: nat, content: string, len: nat, next: string)
    requires MayCollapse(r, show)
    requires IndexOf(s, Open(r), 0) == Some(o) && IndexOf(s, Close(r), 0) == Some(c) && o < c
    requires lo == |Open(r)| && lc == |Close(r)| && len == c + lc - o
    requires content == if show then Substr(s, o + lo, c - (o + lo)) else ""
    requires next == Splice(s, content, o, len)
    ensures |next| < |s| && SameResult(next, s, r, show)
  {
    ContentWith(s, r, show, o, c, lo, content);
    CollapseIs(s, r, show, o, c, content, len);
    CollapseNext(s, r, show, o, c, next);
  }

  /** The content the source cuts with the opening tag's length is the
      content of the pass. */
  lemma {:induction false} ContentWith(s: string, r: string, show: bool, o: nat, c: nat, lo: nat, content: string)
    requires lo == |Open(r)|
    requires content == if show then Substr(s, o + lo, c - (o + lo)) else ""
    ensures content == if show then Substr(s, o + |Open(r)|, c - (o + |Open(r)|)) else ""
  {
  }

  /** The loop ends in the same text from `x` as from `y`. */
  predicate SameResult(x: string, y: string, r: string, show: bool)
    requires MayCollapse(r, show)
  {
    CollapseIf(x, r, show) == CollapseIf(y, r, show)
  }

  /** Both searches from the start found their tags, the opening one first. */
  lemma {:induction false} PairFound(s: string, r: string, o: nat, c: nat)
    requires IndexOf(s, Open(r), 0) == Some(o) && IndexOf(s, Close(r), 0) == Some(c) && o < c
    ensures FoundPair(s, r, o, c)
  {
  }

  /** The loop goes on with the collapsed text, which is shorter. */
  lemma {:induction false} CollapseNext(s: string, r: string, show: bool, o: nat, c: nat, next: string)
    requires MayCollapse(r, show)
    requires IndexOf(s, Open(r), 0) == Some(o) && IndexOf(s, Close(r), 0) == Some(c) && o < c
    requires next == Collapse(s, r, show, o, c)
    ensures |next| < |s| && SameResult(next, s, r, show)
  {
    PairFound(s, r, o, c);
    CollapseShrinks(s, r, show, o, c);
    CollapseIfStep(s, r, show, o, c, next);
  }


  /** A block whose tags lie in text free of other tags collapses to its
      content when shown and to nothing when hidden; the text around it is
      kept, and the rest is collapsed on its own. */
  lemma {:induction false} CollapseBlock(a: string, b: string, rest: string, r: string, show: bool)
    requires Lacks(a, '<') && Lacks(b, '<') && Lacks(r, '<')
    requires |r| > 0 ==> r[0] != '/'
    ensures MayCollapse(r, show)
    ensures CollapseIf(a + Open(r) + b + Close(r) + rest, r, show)
      == a + (if show then b else "") + CollapseIf(rest, r, show)
  {
    NoLtNoOverlap(r);
    var s := Open(r) + b + Close(r) + rest;
    Regroup(a, Open(r), b, Close(r), rest);
    CollapseBehind(a, s, r, show);
    var c: nat := |Open(r)| + |b|;
    var b' := if show then b else "";
    BlockAtStart(b, rest, r, show, c, s, b' + rest);
    CollapseIfStep(s, r, show, 0, c, b' + rest);
    CollapseBehind(b', rest, r, show);
  }

  /** A text that starts with a block: one pass of the loop takes the
      block and leaves what follows it. */
  lemma {:induction false} BlockAtStart(b: string, rest: string, r: string, show: bool, c: nat, s: string, next: string)
    requires Lacks(b, '<') && Lacks(r, '<')
    requires |r| > 0 ==> r[0] != '/'
    requires s == Open(r) + b + Close(r) + rest && c == |Open(r)| + |b|
    requires next == (if show then b else "") + rest
    ensures FoundPair(s, r, 0, c)
    ensures next == Collapse(s, r, show, 0, c)
  {
    PairAtStart(b, rest, r);
    BlockSlices(Open(r), b, Close(r), rest, s, c);
    CollapseFromSlices(s, r, show, c, b, rest, next);
  }

  /** A pass at a pair that starts the text, told by what lies around the
      tags. */
  lemma {:induction false} CollapseFromSlices(s: string, r: string, show: bool, c: nat, b: string, rest: string, next: string)
    requires FoundPair(s, r, 0, c) && |Open(r)| + |b| == c && c + |Close(r)| <= |s|
    requires s[|Open(r)|..c] == b && s[c + |Close(r)|..] == rest
    requires next == (if show then b else "") + rest
    ensures next == Collapse(s, r, show, 0, c)
  {
    CollapseShape(s, r, show, 0, c);
    assert s[..0] == [];
  }

  /** The pieces of a block, cut back out of it. */
  lemma {:induction false} BlockSlices(o: string, b: string, cl: string, rest: string, s: string, c: nat)
    requires s == o + b + cl + rest && c == |o| + |b|
    ensures c + |cl| <= |s| && s[|o|..c] == b && s[c + |cl|..] == rest
  {
    assert s[|o|..c] == b;
    assert s[c + |cl|..] == rest;
  }

  /** A text that starts with a block: the loop finds its two tags first. */
  lemma {:induction false} PairAtStart(b: string, rest: string, r: string)
    requires Lacks(b, '<') && Lacks(r, '<')
    requires |r| > 0 ==> r[0] != '/'
    ensures var s := Open(r) + b + Close(r) + rest;
      IndexOf(s, Open(r), 0) == Some(0) && IndexOf(s, Close(r), 0) == Some(|Open(r)| + |b|)
    ensures var p := Pair(Open(r) + b + Close(r) + rest, r);
      p.Some? && p.value.0 == 0 && p.value.1 == |Open(r)| + |b|
  {
    var s := Open(r) + b + Close(r) + rest;
    var lo := |Open(r)|;
    var c: nat := lo + |b|;
    assert s[..lo] == Open(r);
    IndexOfIs(s, Open(r), 0, 0);
    forall i | 1 <= i < c
      ensures s[i] != Close(r)[0]
    {
      if i < lo {
        assert s[i] == Open(r)[i];
        if i <= |r| {
          assert Open(r)[i] == r[i - 1];
        }
      } else {
        assert s[i] == b[i - lo];
      }
    }
    NoOccurrenceWithout(s, Close(r), 1, c);
    if |s| >= |Close(r)| {
      assert s[..|Close(r)|][1] == s[1];
      assert s[1] == (if |r| > 0 then r[0] else '>');
    }
    assert s[c..c + |Close(r)|] == Close(r);
    IndexOfIs(s, Close(r), 0, c);
  }

  // ---------------------------------------------------------------------
  // replace_if

  /** The negative form of a rule: the part before the first `:`, then
      `!:`, then the rest with every `:` taken out (explode and implode on
      `:`). A rule without `:` gets `!:` appended. */
  function NotRule(r: string): (nr: string)
  {
    match IndexOf(r, ":", 0)
    case None => r + "!:"
    case Some(k) => r[..k] + "!:" + Without(r[k + 1..], ':')
  }

  /** For `if:` + N, the negative form is `if!:` + N without its colons. */
  lemma {:induction false} NotRuleOfIf(n: string)
    ensures NotRule("if:" + n) == "if!:" + Without(n, ':')
    ensures Lacks(n, ':') ==> NotRule("if:" + n) == "if!:" + n
  {
    var r := "if:" + n;
    assert r[..3] == "if:";
    CharOccurs(r, ':', 0);
    CharOccurs(r, ':', 1);
    CharOccurs(r, ':', 2);
    IndexOfIs(r, ":", 0, 2);
    NotRuleAt(r, 2);
    assert r[..2] == "if" && r[3..] == n;
    if Lacks(n, ':') {
      WithoutLacking(n, ':');
    }
  }

  /** The negative form of a rule with its first colon at `k`. */
  lemma {:induction false} NotRuleAt(r: string, k: nat)
    requires IndexOf(r, ":", 0) == Some(k)
    ensures NotRule(r) == r[..k] + "!:" + Without(r[k + 1..], ':')
  {
  }

  lemma {:induction false} WithoutLacking(s: string, c: char)
    requires Lacks(s, c)
    ensures Without(s, c) == s
    decreases |s|
  {
    if s != [] {
      WithoutLacking(s[1..], c);
      assert s == [s[0]] + s[1..];
    }
  }

  /** Characters of the negative form come from the rule, `!` or `:`. */
  lemma {:induction false} NotRuleChars(r: string, ch: char)
    requires Lacks(r, ch) && ch != '!' && ch != ':'
    ensures Lacks(NotRule(r), ch)
  {
    match IndexOf(r, ":", 0)
    case None =>
    case Some(k) =>
      WithoutKeeps(r[k + 1..], ':', ch);
  }

  lemma {:induction false} WithoutKeeps(s: string, c: char, ch: char)
    requires Lacks(s, ch)
    ensures Lacks(Without(s, c), ch)
    decreases |s|
  {
    if s != [] {
      WithoutKeeps(s[1..], c, ch);
    }
  }

  /** Both passes of replace_if are possible: the positive rule is shown
      only when `show`, the negative one only when not. */
  predicate IfRuleSafe(r: string, show: bool)
  {
    MayCollapse(r, show) && MayCollapse(NotRule(r), !show)
  }

  /** replace_if(rule, show, fragment): the positive rule collapsed with
      `show`, then its negative form with `!show`. Without a fragment both
      passes run on the template and write it back. With one, the first
      pass runs on the fragment; the second runs on the first pass's result
      only when the fragment as given is truthy in PHP, and otherwise on the
      template, which it then writes. The result is the pair (returned
      text, new template). */
  function ReplaceIfSpec(template: string, r: string, show: bool, frag: Option<string>): (res: (string, string))
    requires IfRuleSafe(r, show)
    ensures frag.Some? && Truthy(Str(frag.value)) ==> res.1 == template
    ensures !(frag.Some? && Truthy(Str(frag.value))) ==> res.0 == res.1
    ensures |res.1| <= |template|
  {
    var s1 := if frag.None? then template else frag.value;
    var r1 := CollapseIf(s1, r, show);
    var t1 := if frag.None? then r1 else template;
    var onFrag := frag.Some? && Truthy(Str(frag.value));
    var s2 := if onFrag then r1 else t1;
    var r2 := CollapseIf(s2, NotRule(r), !show);
    (r2, if onFrag then t1 else r2)
  }

  /** A rule that is safe for both truth values: one without `<`. */
  lemma {:induction false} SafeWithoutLt(r: string, show: bool)
    requires Lacks(r, '<')
    ensures IfRuleSafe(r, show)
  {
    NoLtNoOverlap(r);
    NotRuleChars(r, '<');
    NoLtNoOverlap(NotRule(r));
  }

  /** Both passes over text holding one block of the rule `r`. */
  lemma {:induction false} IfPasses(a: string, b: string, c: string, r: string, show: bool)
    requires Lacks(a, '<') && Lacks(b, '<') && Lacks(c, '<') && Lacks(r, '<') && |r| > 0 && r[0] != '/'
    ensures IfRuleSafe(r, show)
    ensures CollapseIf(CollapseIf(a + Open(r) + b + Close(r) + c, r, show), NotRule(r), !show)
      == a + (if show then b else "") + c
  {
    SafeWithoutLt(r, show);
    CollapseBlock(a, b, c, r, show);
    CollapsePlain(c, r, show);
    var m := if show then b else "";
    assert Lacks(m, '<');
    LacksJoin(a, m, c, '<');
    CollapsePlain(a + m + c, NotRule(r), !show);
  }

  /** The positive block of an if rule bound on the template: shown when
      `show`, gone otherwise; the text around it is kept. */
  lemma {:induction false} IfBlock(a: string, b: string, c: string, n: string, show: bool)
    requires Lacks(a, '<') && Lacks(b, '<') && Lacks(c, '<') && Lacks(n, '<')
    ensures IfRuleSafe("if:" + n, show)
    ensures ReplaceIfSpec(a + Open("if:" + n) + b + Close("if:" + n) + c, "if:" + n, show, None).1
      == a + (if show then b else "") + c
  {
    var r := "if:" + n;
    assert Lacks(r, '<');
    IfPasses(a, b, c, r, show);
  }

  /** The same block inside a fragment (a repeat iteration): the fragment
      gets the result, and the template is left alone. */
  lemma {:induction false} IfBlockIn(template: string, a: string, b: string, c: string, r: string, show: bool)
    requires Lacks(a, '<') && Lacks(b, '<') && Lacks(c, '<') && Lacks(r, '<') && |r| > 0 && r[0] != '/'
    ensures IfRuleSafe(r, show)
    ensures ReplaceIfSpec(template, r, show, Some(a + Open(r) + b + Close(r) + c))
      == (a + (if show then b else "") + c, template)
  {
    var f := a + Open(r) + b + Close(r) + c;
    var out := a + (if show then b else "") + c;
    IfPasses(a, b, c, r, show);
    OnFragment(template, r, show, f, out);
  }

  /** A fragment longer than one character is truthy: both passes run on
      it, and the template is left alone. */
  lemma {:induction false} OnFragment(template: string, r: string, show: bool, f: string, out: string)
    requires IfRuleSafe(r, show) && |f| > 1
    requires CollapseIf(CollapseIf(f, r, show), NotRule(r), !show) == out
    ensures ReplaceIfSpec(template, r, show, Some(f)) == (out, template)
  {
  }

  /** An empty fragment is not truthy: the negative pass then runs on the
      template instead, writes it, and returns all of it. */
  lemma {:induction false} IfOnEmptyFragment(template: string, r: string, show: bool)
    requires IfRuleSafe(r, show)
    ensures ReplaceIfSpec(template, r, show, Some("")).0 == CollapseIf(template, NotRule(r), !show)
    ensures ReplaceIfSpec(template, r, show, Some("")).1 == CollapseIf(template, NotRule(r), !show)
  {
    assert Pair("", r).None?;
  }

  /** The negative block of an if rule: shown when not `show`, gone
      otherwise. A positive tag cannot start where a negative one does. */
  lemma {:induction false} NotBlock(a: string, b: string, c: string, n: string, show: bool)
    requires Lacks(a, '<') && Lacks(b, '<') && Lacks(c, '<') && Lacks(n, '<') && Lacks(n, ':')
    ensures IfRuleSafe("if:" + n, show)
    ensures ReplaceIfSpec(a + Open("if!:" + n) + b + Close("if!:" + n) + c, "if:" + n, show, None).1
      == a + (if show then "" else b) + c
  {
    var r := "if:" + n;
    assert Lacks(r, '<');
    SafeWithoutLt(r, show);
    NotRuleOfIf(n);
    var nr := "if!:" + n;
    assert Lacks(nr, '<');
    var s := a + Open(nr) + b + Close(nr) + c;
    NoPositiveTag(a, b, c, n);
    IndexOfNone(s, Open(r), 0);
    assert CollapseIf(s, r, show) == s;
    CollapseBlock(a, b, c, nr, !show);
    CollapsePlain(c, nr, !show);
  }

  /** One block of rule `r` and then text that holds no opening tag of `r`:
      the block is collapsed and the text behind it is kept. */
  lemma {:induction false} BlockThenRest(a: string, b: string, rest: string, r: string, show: bool)
    requires Lacks(a, '<') && Lacks(b, '<') && Lacks(r, '<') && |r| > 0 && r[0] != '/'
    requires IndexOf(rest, Open(r), 0).None?
    ensures MayCollapse(r, show)
    ensures CollapseIf(a + Open(r) + b + Close(r) + rest, r, show) == a + (if show then b else "") + rest
  {
    CollapseBlock(a, b, rest, r, show);
    CollapseIfStop(rest, r, show);
  }

  /** Both passes over a block of rule `r` followed by a block of its
      negative form: exactly one of the two is shown, and the text around
      them is kept. */
  lemma {:induction false} IfPairPasses(a: string, b: string, m: string, d: string, e: string, r: string, nr: string, show: bool)
    requires Lacks(a, '<') && Lacks(b, '<') && Lacks(m, '<') && Lacks(d, '<') && Lacks(e, '<')
    requires Lacks(r, '<') && |r| > 0 && r[0] != '/' && Lacks(nr, '<') && |nr| > 0 && nr[0] != '/'
    requires NotRule(r) == nr && IndexOf(m + Open(nr) + d + Close(nr) + e, Open(r), 0).None?
    ensures IfRuleSafe(r, show)
    ensures CollapseIf(CollapseIf(a + Open(r) + b + Close(r) + m + Open(nr) + d + Close(nr) + e, r, show), nr, !show)
      == a + (if show then b else "") + m + (if show then "" else d) + e
  {
    SafeWithoutLt(r, show);
    var rest := m + Open(nr) + d + Close(nr) + e;
    var head := a + Open(r) + b + Close(r);
    var s := head + rest;
    JoinTail(head, m, Open(nr), d, Close(nr), e);
    BlockThenRest(a, b, rest, r, show);
    var x := if show then b else "";
    var pass1 := CollapseIf(s, r, show);
    assert pass1 == a + x + rest;
    var front := a + x + m;
    assert Lacks(x, '<');
    LacksJoin(a, x, m, '<');
    JoinTail(a + x, m, Open(nr), d, Close(nr), e);
    IfPairSecond(front, d, e, nr, !show, pass1);
    var y := if show then "" else d;
    assert front + y + e == a + x + m + y + e;
  }

  /** The facts IfPairPasses needs about `if:N` and `if!:N`. */
  lemma {:induction false} IfPairRules(m: string, d: string, e: string, n: string)
    requires Lacks(m, '<') && Lacks(d, '<') && Lacks(e, '<') && Lacks(n, '<') && Lacks(n, ':')
    ensures var r, nr := "if:" + n, "if!:" + n;
      Lacks(r, '<') && |r| > 0 && r[0] != '/' && Lacks(nr, '<') && |nr| > 0 && nr[0] != '/'
      && NotRule(r) == nr && IndexOf(m + Open(nr) + d + Close(nr) + e, Open(r), 0).None?
  {
    var r, nr := "if:" + n, "if!:" + n;
    assert Lacks(r, '<') && Lacks(nr, '<');
    NotRuleOfIf(n);
    NoPositiveTag(m, d, e, n);
    IndexOfNone(m + Open(nr) + d + Close(nr) + e, Open(r), 0);
  }

  /** A positive block followed by the negative block of the same name,
      bound on the template: exactly one of the two is shown. */
  lemma {:induction false} IfPair(a: string, b: string, m: string, d: string, e: string, n: string, show: bool)
    requires Lacks(a, '<') && Lacks(b, '<') && Lacks(m, '<') && Lacks(d, '<') && Lacks(e, '<')
    requires Lacks(n, '<') && Lacks(n, ':')
    ensures IfRuleSafe("if:" + n, show)
    ensures ReplaceIfSpec(a + Open("if:" + n) + b + Close("if:" + n) + m + Open("if!:" + n) + d + Close("if!:" + n) + e,
                          "if:" + n, show, None).1
      == a + (if show then b else "") + m + (if show then "" else d) + e
  {
    IfPairRules(m, d, e, n);
    IfPairPasses(a, b, m, d, e, "if:" + n, "if!:" + n, show);
  }

  /** The pair inside a fragment: the fragment gets the result, and the
      template is left alone. */
  lemma {:induction false} IfPairIn(template: string, a: string, b: string, m: string, d: string, e: string, r: string, nr: string, show: bool)
    requires Lacks(a, '<') && Lacks(b, '<') && Lacks(m, '<') && Lacks(d, '<') && Lacks(e, '<')
    requires Lacks(r, '<') && |r| > 0 && r[0] != '/' && Lacks(nr, '<') && |nr| > 0 && nr[0] != '/'
    requires NotRule(r) == nr && IndexOf(m + Open(nr) + d + Close(nr) + e, Open(r), 0).None?
    ensures IfRuleSafe(r, show)
    ensures ReplaceIfSpec(template, r, show, Some(a + Open(r) + b + Close(r) + m + Open(nr) + d + Close(nr) + e))
      == (a + (if show then b else "") + m + (if show then "" else d) + e, template)
  {
    var f := a + Open(r) + b + Close(r) + m + Open(nr) + d + Close(nr) + e;
    var out := a + (if show then b else "") + m + (if show then "" else d) + e;
    IfPairPasses(a, b, m, d, e, r, nr, show);
    OnFragment(template, r, show, f, out);
  }

  /** Regrouping the text of IfPair behind a leading part. */
  lemma {:induction false} JoinTail(h: string, m: string, o: string, d: string, c: string, e: string)
    ensures h + m + o + d + c + e == h + (m + o + d + c + e)
  {
  }

  /** The negative pass of IfPair, on what the positive pass left. */
  lemma {:induction false} IfPairSecond(front: string, d: string, e: string, nr: string, show': bool, s: string)
    requires Lacks(front, '<') && Lacks(d, '<') && Lacks(e, '<') && Lacks(nr, '<') && |nr| > 0 && nr[0] != '/'
    requires s == front + Open(nr) + d + Close(nr) + e
    ensures MayCollapse(nr, show')
    ensures CollapseIf(s, nr, show') == front + (if show' then d else "") + e
  {
    CollapseBlock(front, d, e, nr, show');
    CollapsePlain(e, nr, show');
  }

  /** In text whose only tags are the negative ones, the positive opening
      tag occurs nowhere. */
  lemma {:induction false} NoPositiveTag(a: string, b: string, c: string, n: string)
    requires Lacks(a, '<') && Lacks(b, '<') && Lacks(c, '<') && Lacks(n, '<')
    ensures forall j :: 0 <= j ==> !Occurs(a + Open("if!:" + n) + b + Close("if!:" + n) + c, Open("if:" + n), j)
  {
    var nr := "if!:" + n;
    var s := a + Open(nr) + b + Close(nr) + c;
    var pat := Open("if:" + n);
    var i1 := |a|;
    var i2 := |a| + |Open(nr)| + |b|;
    forall j | 0 <= j < |s| && j != i1 && j != i2
      ensures s[j] != '<'
    {
      if j < i1 {
        assert s[j] == a[j];
      } else if j < i1 + |Open(nr)| {
        assert s[j] == Open(nr)[j - i1];
        if 1 <= j - i1 <= |nr| {
          assert Open(nr)[j - i1] == nr[j - i1 - 1];
          if j - i1 >= 5 {
            assert nr[j - i1 - 1] == n[j - i1 - 5];
          }
        }
      } else if j < i2 {
        assert s[j] == b[j - i1 - |Open(nr)|];
      } else if j < i2 + |Close(nr)| {
        assert s[j] == Close(nr)[j - i2];
        if 2 <= j - i2 < 2 + |nr| {
          assert Close(nr)[j - i2] == nr[j - i2 - 2];
          if j - i2 >= 6 {
            assert nr[j - i2 - 2] == n[j - i2 - 6];
          }
        }
      } else {
        assert s[j] == c[j - i2 - |Close(nr)|];
      }
    }
    forall j | 0 <= j
      ensures !Occurs(s, pat, j)
    {
      if j + |pat| <= |s| {
        assert s[j..j + |pat|][0] == s[j];
        if j == i1 {
          assert s[j..j + |pat|][3] == s[j + 3] == '!';
        } else if j == i2 {
          assert s[j..j + |pat|][1] == s[j + 1] == '/';
        }
      }
    }
  }
}
