/** The repeat engine: replace_repeat (templatte.php:392-424). Every block
    of the rule gets one filled copy of its text inserted in front of it. */
module Repeat {
  import opened Text
  import opened Escape
  import opened Values
  import opened Binder
  import opened Conditional

  /** Every nested if rule may be applied with its own truth value. */
  predicate NestedSafe(rules: seq<(string, Value)>, tok: string)
  {
    forall i :: 0 <= i < |rules| && IsIfRule(rules[i].0) ==> IfRuleSafe(rules[i].0 + tok, Truthy(rules[i].1))
  }

  /** The nested rules of one iteration applied in order to the block's
      text (templatte.php:405-416): an `if:` key runs replace_if on the text
      with the truth of its value; any other key has the token appended and
      its `{R}` replaced as get_replacement says. The result is the pair
      (filled text, template); the template changes only through
      replace_if's fallback for a fragment that is not truthy. */
  function ApplyNested(template: string, str: string, rules: seq<(string, Value)>, tok: string): (res: (string, string))
    requires NestedSafe(rules, tok)
    ensures |res.1| <= |template|
    decreases |rules|
  {
    if rules == [] then (str, template)
    else
      var (k, v) := rules[0];
      if IsIfRule(k) then
        var (s1, t1) := ReplaceIfSpec(template, k + tok, Truthy(v), Some(str));
        ApplyNested(t1, s1, rules[1..], tok)
      else
        var (p, x) := GetReplacement(k + tok, v);
        ApplyNested(template, ReplaceAll(str, "{" + p + "}", x), rules[1..], tok)
  }

  /** Rules without an `if:` key. */
  predicate NoIfRules(rules: seq<(string, Value)>)
  {
    forall i :: 0 <= i < |rules| ==> !IsIfRule(rules[i].0)
  }

  /** The text filled by plain rules alone: one str_replace per rule. */
  function Fill(str: string, rules: seq<(string, Value)>, tok: string): string
    decreases |rules|
  {
    if rules == [] then str
    else
      var (p, x) := GetReplacement(rules[0].0 + tok, rules[0].1);
      Fill(ReplaceAll(str, "{" + p + "}", x), rules[1..], tok)
  }

  /** Plain rules never touch the template, and fill the text one rule
      after the other. */
  lemma {:induction false} ApplyPlain(template: string, str: string, rules: seq<(string, Value)>, tok: string)
    requires NoIfRules(rules)
    ensures NestedSafe(rules, tok)
    ensures ApplyNested(template, str, rules, tok) == (Fill(str, rules, tok), template)
    decreases |rules|
  {
    if rules != [] {
      var (p, x) := GetReplacement(rules[0].0 + tok, rules[0].1);
      ApplyPlain(template, ReplaceAll(str, "{" + p + "}", x), rules[1..], tok);
    }
  }

  /** One turn of replace_repeat's loop for a block whose opening tag is
      at `o` and whose closing tag is at `c`: the text between the tags,
      filled by the rules, is inserted at the opening tag, and the cursor
      moves behind the closing tag. The result is (template, cursor). */
  function RepeatTurn(template: string, r: string, rules: seq<(string, Value)>, tok: string, o: nat, c: nat): (res: (string, nat))
    requires NestedSafe(rules, tok)
    requires o < c && c + |Close(r)| <= |template|
    ensures |res.0| - res.1 < |template| - c
  {
    var lo := |Open(r)|;
    var inner := Substr(template, o + lo, c - (o + lo));
    var (copy, t1) := ApplyNested(template, inner, rules, tok);
    (Splice(t1, copy, o, 0), |copy| + c + |Close(r)|)
  }

  /** replace_repeat's loop from the cursor `from`: it runs while an opening
      and a closing tag are found at or after the cursor, the opening one
      first. */
  function RepeatFrom(template: string, r: string, rules: seq<(string, Value)>, tok: string, from: nat): (t: string)
    requires NestedSafe(rules, tok)
    decreases if from <= |template| then |template| - from else 0
  {
    match IndexOf(template, Open(r), from)
    case None => template
    case Some(o) =>
      match IndexOf(template, Close(r), from)
      case None => template
      case Some(c) =>
        if c <= o then template
        else
          var (t2, next) := RepeatTurn(template, r, rules, tok, o, c);
          RepeatFrom(t2, r, rules, tok, next)
  }

  /** replace_repeat(rule, value): the loop from the start, over the entries
      of the value. */
  function ReplaceRepeatSpec(template: string, r: string, v: Value, tok: string): string
    requires NestedSafe(Entries(v), tok)
  {
    RepeatFrom(template, r, Entries(v), tok, 0)
  }

  /** The loop stops when no opening tag is left at or after the cursor. */
  lemma {:induction false} RepeatDone(template: string, r: string, rules: seq<(string, Value)>, tok: string, from: nat)
    requires NestedSafe(rules, tok)
    requires forall i :: from <= i < |template| ==> template[i] != '<'
    ensures RepeatFrom(template, r, rules, tok, from) == template
  {
    NoOccurrenceWithout(template, Open(r), from, |template|);
    IndexOfNone(template, Open(r), from);
  }

  /** One turn of the loop, unfolded. */
  lemma {:induction false} RepeatStep(template: string, r: string, rules: seq<(string, Value)>, tok: string, from: nat, o: nat, c: nat)
    requires NestedSafe(rules, tok)
    requires IndexOf(template, Open(r), from) == Some(o) && IndexOf(template, Close(r), from) == Some(c) && o < c
    ensures RepeatFrom(template, r, rules, tok, from)
      == RepeatFrom(RepeatTurn(template, r, rules, tok, o, c).0, r, rules, tok, RepeatTurn(template, r, rules, tok, o, c).1)
  {
  }

  /** replace_repeat's loop ends when the tags are not found in order. */
  lemma {:induction false} RepeatStop(template: string, r: string, rules: seq<(string, Value)>, tok: string, from: nat, so: Option<nat>, eo: Option<nat>)
    requires NestedSafe(rules, tok)
    requires so == IndexOf(template, Open(r), from) && eo == IndexOf(template, Close(r), from)
    requires !(so.Some? && eo.Some? && so.value < eo.value)
    ensures RepeatFrom(template, r, rules, tok, from) == template
  {
  }

  /** The block's text as replace_repeat takes it, with the length of the
      opening tag at hand. */
  lemma {:induction false} InnerIs(template: string, r: string, o: nat, c: nat, lo: nat, str: string)
    requires lo == |Open(r)| && str == Substr(template, o + lo, c - (o + lo))
    ensures str == Substr(template, o + |Open(r)|, c - (o + |Open(r)|))
  {
  }

  /** RepeatStep, with the turn's result named: the result is kept and
      the distance left to the end shrinks. */
  lemma {:induction false} RepeatStepTo(template: string, r: string, rules: seq<(string, Value)>, tok: string, from: nat, o: nat, c: nat, t2: string, next: nat)
    requires NestedSafe(rules, tok)
    requires IndexOf(template, Open(r), from) == Some(o) && IndexOf(template, Close(r), from) == Some(c) && o < c
    requires RepeatTurn(template, r, rules, tok, o, c).0 == t2 && RepeatTurn(template, r, rules, tok, o, c).1 == next
    ensures (if next <= |t2| then |t2| - next else 0) < (if from <= |template| then |template| - from else 0)
    ensures RepeatFrom(t2, r, rules, tok, next) == RepeatFrom(template, r, rules, tok, from)
  {
    RepeatStep(template, r, rules, tok, from, o, c);
  }

  /** RepeatTurn, unfolded. */
  lemma {:induction false} RepeatTurnOf(template: string, r: string, rules: seq<(string, Value)>, tok: string, o: nat, c: nat,
                                        str: string, copy: string, t1: string)
    requires NestedSafe(rules, tok)
    requires o < c && c + |Close(r)| <= |template|
    requires str == Substr(template, o + |Open(r)|, c - (o + |Open(r)|))
    requires (copy, t1) == ApplyNested(template, str, rules, tok)
    ensures RepeatTurn(template, r, rules, tok, o, c).0 == Splice(t1, copy, o, 0)
    ensures RepeatTurn(template, r, rules, tok, o, c).1 == |copy| + c + |Close(r)|
  {
  }


  /** A single block after text without `<`, and no tag behind it: with
      plain rules the block's text, filled, is inserted in front of the
      block, which itself stays for the next call. */
  lemma {:induction false} RepeatOnce(a: string, b: string, c: string, r: string, rules: seq<(string, Value)>, tok: string)
    requires Lacks(a, '<') && Lacks(b, '<') && Lacks(c, '<') && Lacks(r, '<')
    requires |r| > 0 && r[0] != '/'
    requires NoIfRules(rules)
    ensures NestedSafe(rules, tok)
    ensures RepeatFrom(a + Open(r) + b + Close(r) + c, r, rules, tok, 0)
      == a + Fill(b, rules, tok) + Open(r) + b + Close(r) + c
  {
    var s := a + Open(r) + b + Close(r) + c;
    var cl: nat := |a| + |Open(r)| + |b|;
    TagsOfBlock(a, b, c, r, s, |a|, cl);
    BlockPieces(a, b, c, r);
    var copy := Fill(b, rules, tok);
    InsertPieces(a, copy, b, c, r);
    OneTurn(s, a + copy + Open(r) + b + Close(r) + c, r, rules, tok, |a|, cl, b);
  }

  /** The loop turns once at the given tags and then stops. */
  lemma {:induction false} OneTurn(s: string, t: string, r: string, rules: seq<(string, Value)>, tok: string, o: nat, cl: nat, b: string)
    requires NoIfRules(rules)
    requires IndexOf(s, Open(r), 0) == Some(o) && IndexOf(s, Close(r), 0) == Some(cl) && o < cl
    requires Substr(s, o + |Open(r)|, cl - (o + |Open(r)|)) == b
    requires Splice(s, Fill(b, rules, tok), o, 0) == t
    requires forall i :: |Fill(b, rules, tok)| + cl + |Close(r)| <= i < |t| ==> t[i] != '<'
    ensures NestedSafe(rules, tok)
    ensures RepeatFrom(s, r, rules, tok, 0) == t
  {
    TurnPlain(s, r, rules, tok, o, cl, b);
    var turn := RepeatTurn(s, r, rules, tok, o, cl);
    RepeatStep(s, r, rules, tok, 0, o, cl);
    RepeatDone(t, r, rules, tok, turn.1);
    assert turn.0 == t;
  }

  /** The first tags of a text holding one block behind text without `<`. */
  lemma {:induction false} TagsOfBlock(a: string, b: string, c: string, r: string, s: string, o: nat, cl: nat)
    requires Lacks(a, '<') && Lacks(b, '<') && Lacks(r, '<')
    requires |r| > 0 && r[0] != '/'
    requires s == a + Open(r) + b + Close(r) + c && o == |a| && cl == |a| + |Open(r)| + |b|
    ensures IndexOf(s, Open(r), 0) == Some(o) && IndexOf(s, Close(r), 0) == Some(cl)
  {
    var blk := Open(r) + b + Close(r) + c;
    Regroup(a, Open(r), b, Close(r), c);
    PairAtStart(b, c, r);
    IndexOfBehindAt(a, blk, Open(r), 0, o);
    IndexOfBehindAt(a, blk, Close(r), |Open(r)| + |b|, cl);
  }

  /** A turn with plain rules inserts the filled text and leaves the rest. */
  lemma {:induction false} TurnPlain(template: string, r: string, rules: seq<(string, Value)>, tok: string, o: nat, c: nat, inner: string)
    requires NoIfRules(rules)
    requires o < c && c + |Close(r)| <= |template|
    requires inner == Substr(template, o + |Open(r)|, c - (o + |Open(r)|))
    ensures NestedSafe(rules, tok)
    ensures RepeatTurn(template, r, rules, tok, o, c).0 == Splice(template, Fill(inner, rules, tok), o, 0)
    ensures RepeatTurn(template, r, rules, tok, o, c).1 == |Fill(inner, rules, tok)| + c + |Close(r)|
  {
    ApplyPlain(template, inner, rules, tok);
  }

  lemma {:induction false} BlockPieces(a: string, b: string, c: string, r: string)
    ensures var s := a + Open(r) + b + Close(r) + c;
      Substr(s, |a| + |Open(r)|, |a| + |Open(r)| + |b| - (|a| + |Open(r)|)) == b
  {
    var s := a + Open(r) + b + Close(r) + c;
    assert s[|a| + |Open(r)|..|a| + |Open(r)| + |b|] == b;
  }

  /** BlockPieces, with the tags' positions named. */
  lemma {:induction false} BlockText(a: string, b: string, c: string, r: string, s: string, o: nat, cl: nat)
    requires s == a + Open(r) + b + Close(r) + c && o == |a| && cl == |a| + |Open(r)| + |b|
    ensures Substr(s, o + |Open(r)|, cl - (o + |Open(r)|)) == b
  {
    BlockPieces(a, b, c, r);
  }

  lemma {:induction false} InsertPieces(a: string, copy: string, b: string, c: string, r: string)
    requires Lacks(c, '<')
    ensures Splice(a + Open(r) + b + Close(r) + c, copy, |a|, 0) == a + copy + Open(r) + b + Close(r) + c
    ensures var t := a + copy + Open(r) + b + Close(r) + c;
      forall i :: |copy| + |a| + |Open(r)| + |b| + |Close(r)| <= i < |t| ==> t[i] != '<'
  {
    InsertAt(a, copy, Open(r) + b + Close(r) + c);
    var x := a + copy + Open(r) + b + Close(r);
    assert a + copy + Open(r) + b + Close(r) + c == x + c;
    TailLacks(x, c, '<');
  }

  lemma {:induction false} InsertAt(a: string, copy: string, blk: string)
    ensures Splice(a + blk, copy, |a|, 0) == a + copy + blk
  {
    assert (a + blk)[..|a|] == a && (a + blk)[|a|..] == blk;
  }

  lemma {:induction false} TailLacks(x: string, c: string, ch: char)
    requires Lacks(c, ch)
    ensures forall i :: |x| <= i < |x + c| ==> (x + c)[i] != ch
  {
  }

  /** Two iterations bound one after the other come out in the order they
      were bound, both in front of the block. */
  lemma {:induction false} RepeatTwice(a: string, b: string, c: string, r: string, rules1: seq<(string, Value)>, rules2: seq<(string, Value)>, tok: string)
    requires Lacks(a, '<') && Lacks(b, '<') && Lacks(c, '<') && Lacks(r, '<')
    requires |r| > 0 && r[0] != '/'
    requires NoIfRules(rules1) && NoIfRules(rules2)
    requires Lacks(Fill(b, rules1, tok), '<')
    ensures NestedSafe(rules1, tok) && NestedSafe(rules2, tok)
    ensures RepeatFrom(RepeatFrom(a + Open(r) + b + Close(r) + c, r, rules1, tok, 0), r, rules2, tok, 0)
      == a + Fill(b, rules1, tok) + Fill(b, rules2, tok) + Open(r) + b + Close(r) + c
  {
    RepeatOnce(a, b, c, r, rules1, tok);
    var a' := a + Fill(b, rules1, tok);
    assert a + Fill(b, rules1, tok) + Open(r) + b + Close(r) + c == a' + Open(r) + b + Close(r) + c;
    RepeatOnce(a', b, c, r, rules2, tok);
  }

  /** A block holding a nested if block, behind text without `<`: with the
      block's if rule bound for the iteration, the copy in front of the
      block shows the nested block's content exactly when the value is
      truthy, and the template's own block, nested tags included, stays. */
  lemma {:induction false} RepeatOnceIf(a: string, b1: string, b2: string, b3: string, c: string, n: string, k: string, tok: string, v: Value)
    requires Lacks(a, '<') && Lacks(b1, '<') && Lacks(b2, '<') && Lacks(b3, '<') && Lacks(c, '<')
    requires Lacks(n, '<') && Lacks(k, '<') && Lacks(tok, '<')
    requires |k| > 0 && k[0] != '\n'
    ensures NestedSafe([("if:" + k, v)], tok)
    ensures var r, q := "repeat:" + n + tok, "if:" + k + tok;
      RepeatFrom(a + Open(r) + (b1 + Open(q) + b2 + Close(q) + b3) + Close(r) + c, r, [("if:" + k, v)], tok, 0)
      == a + (b1 + (if Truthy(v) then b2 else "") + b3) + Open(r) + (b1 + Open(q) + b2 + Close(q) + b3) + Close(r) + c
  {
    RuleShapes(n, k, tok);
    OnceIfRule(a, b1, b2, b3, c, "repeat:" + n + tok, "if:" + k + tok, "if:" + k, v, tok);
  }

  /** RepeatOnceIf for any repeat rule `r` and nested if rule `q`, the
      key plus the token, that begin differently. */
  lemma {:induction false} OnceIfRule(a: string, b1: string, b2: string, b3: string, c: string, r: string, q: string, key: string, v: Value, tok: string)
    requires Lacks(a, '<') && Lacks(b1, '<') && Lacks(b2, '<') && Lacks(b3, '<') && Lacks(c, '<')
    requires Lacks(r, '<') && Lacks(q, '<') && |r| > 0 && |q| > 0 && r[0] != '/' && q[0] != '/' && q[0] != r[0]
    requires q == key + tok && IsIfRule(key)
    ensures NestedSafe([(key, v)], tok)
    ensures RepeatFrom(a + Open(r) + (b1 + Open(q) + b2 + Close(q) + b3) + Close(r) + c, r, [(key, v)], tok, 0)
      == a + (b1 + (if Truthy(v) then b2 else "") + b3) + Open(r) + (b1 + Open(q) + b2 + Close(q) + b3) + Close(r) + c
  {
    var blk := b1 + Open(q) + b2 + Close(q) + b3;
    var s := a + Open(r) + blk + Close(r) + c;
    var cl: nat := |a| + |Open(r)| + |blk|;
    TagsOfIfBlock(a, b1, b2, b3, c, r, q, s, |a|, cl);
    var copy := b1 + (if Truthy(v) then b2 else "") + b3;
    IfBlockIn(s, b1, b2, b3, q, Truthy(v));
    NestedIfOnly(s, blk, key, v, tok, copy);
    OneTurnAt(a, blk, c, r, [(key, v)], tok, s, cl, copy);
  }

  /** OneTurnBy for a block found behind the text `a`, with nothing but
      text without `<` behind it. */
  lemma {:induction false} OneTurnAt(a: string, blk: string, c: string, r: string, rules: seq<(string, Value)>, tok: string, s: string, cl: nat, copy: string)
    requires Lacks(c, '<') && NestedSafe(rules, tok)
    requires s == a + Open(r) + blk + Close(r) + c && cl == |a| + |Open(r)| + |blk|
    requires IndexOf(s, Open(r), 0) == Some(|a|) && IndexOf(s, Close(r), 0) == Some(cl)
    requires (copy, s) == ApplyNested(s, blk, rules, tok)
    ensures RepeatFrom(s, r, rules, tok, 0) == a + copy + Open(r) + blk + Close(r) + c
  {
    BlockText(a, blk, c, r, s, |a|, cl);
    InsertPieces(a, copy, blk, c, r);
    OneTurnBy(s, a + copy + Open(r) + blk + Close(r) + c, r, rules, tok, |a|, cl, blk, copy);
  }

  /** The repeat and if rules built from names without `<`. */
  lemma {:induction false} RuleShapes(n: string, k: string, tok: string)
    requires Lacks(n, '<') && Lacks(k, '<') && Lacks(tok, '<') && |k| > 0 && k[0] != '\n'
    ensures var r, q := "repeat:" + n + tok, "if:" + k + tok;
      Lacks(r, '<') && Lacks(q, '<') && |r| > 0 && |q| > 0 && r[0] == 'r' && q[0] == 'i' && IsIfRule("if:" + k)
  {
    LacksJoin("repeat:", n, tok, '<');
    LacksJoin("if:", k, tok, '<');
    assert ("if:" + k)[..3] == "if:";
  }

  /** A single if rule applied to a block's text: its replace_if result,
      with the template kept. */
  lemma {:induction false} NestedIfOnly(template: string, str: string, key: string, v: Value, tok: string, out: string)
    requires IsIfRule(key) && IfRuleSafe(key + tok, Truthy(v))
    requires ReplaceIfSpec(template, key + tok, Truthy(v), Some(str)) == (out, template)
    ensures NestedSafe([(key, v)], tok)
    ensures (out, template) == ApplyNested(template, str, [(key, v)], tok)
  {
    assert [(key, v)][1..] == [];
  }

  /** The loop turns once at the given tags, the nested rules keeping the
      template, and then stops. */
  lemma {:induction false} OneTurnBy(s: string, t: string, r: string, rules: seq<(string, Value)>, tok: string, o: nat, cl: nat, b: string, copy: string)
    requires NestedSafe(rules, tok)
    requires IndexOf(s, Open(r), 0) == Some(o) && IndexOf(s, Close(r), 0) == Some(cl) && o < cl
    requires Substr(s, o + |Open(r)|, cl - (o + |Open(r)|)) == b
    requires (copy, s) == ApplyNested(s, b, rules, tok)
    requires Splice(s, copy, o, 0) == t
    requires forall i :: |copy| + cl + |Close(r)| <= i < |t| ==> t[i] != '<'
    ensures RepeatFrom(s, r, rules, tok, 0) == t
  {
    RepeatTurnOf(s, r, rules, tok, o, cl, b, copy, s);
    var turn := RepeatTurn(s, r, rules, tok, o, cl);
    RepeatStep(s, r, rules, tok, 0, o, cl);
    RepeatDone(t, r, rules, tok, turn.1);
    assert turn.0 == t;
  }

  /** The first tags of a repeat block holding a nested if block, behind
      text without `<`: the nested tags are not taken for the block's own. */
  lemma {:induction false} TagsOfIfBlock(a: string, b1: string, b2: string, b3: string, c: string, r: string, q: string, s: string, o: nat, cl: nat)
    requires Lacks(a, '<') && Lacks(b1, '<') && Lacks(b2, '<') && Lacks(b3, '<') && Lacks(r, '<') && Lacks(q, '<')
    requires |r| > 0 && |q| > 0 && r[0] != '/' && q[0] != '/' && ClosesApart(q, r)
    requires s == a + Open(r) + (b1 + Open(q) + b2 + Close(q) + b3) + Close(r) + c
    requires o == |a| && cl == |a| + |Open(r)| + |b1 + Open(q) + b2 + Close(q) + b3|
    ensures IndexOf(s, Open(r), 0) == Some(o) && IndexOf(s, Close(r), 0) == Some(cl)
  {
    var pat := Close(r);
    var u := Close(r) + c;
    var w6 := b3 + u;
    var w5 := Close(q) + w6;
    var w4 := b2 + w5;
    var w3 := Open(q) + w4;
    var w2 := b1 + w3;
    var w1 := Open(r) + w2;
    NoneInLacking(b3, u, pat);
    NoneBeforeBehind(b3, u, pat, 0, |b3|);
    ClosedTag(q, r, w6);
    NoneBeforeBehind(Close(q), w6, pat, |b3|, |Close(q)| + |b3|);
    NoneInLacking(b2, w5, pat);
    NoneBeforeBehind(b2, w5, pat, |Close(q)| + |b3|, |b2| + |Close(q)| + |b3|);
    OpenedTag(q, r, w4);
    NoneBeforeBehind(Open(q), w4, pat, |b2| + |Close(q)| + |b3|, |Open(q)| + |b2| + |Close(q)| + |b3|);
    NoneInLacking(b1, w3, pat);
    NoneBeforeBehind(b1, w3, pat, |Open(q)| + |b2| + |Close(q)| + |b3|, |b1| + |Open(q)| + |b2| + |Close(q)| + |b3|);
    OpenedTag(r, r, w2);
    NoneBeforeBehind(Open(r), w2, pat, |b1| + |Open(q)| + |b2| + |Close(q)| + |b3|, cl - |a|);
    NoneInLacking(a, w1, pat);
    NoneBeforeBehind(a, w1, pat, cl - |a|, cl);
    Nest(a, Open(r), b1, Open(q), b2, Close(q), b3, Close(r), c);
    assert u[..|pat|] == pat;
    OccursAfter(a + Open(r) + (b1 + Open(q) + b2 + Close(q) + b3), u, pat, 0, cl);
    IndexOfIs(s, pat, 0, cl);
    assert w1[..|Open(r)|] == Open(r);
    IndexOfIs(w1, Open(r), 0, 0);
    IndexOfBehindAt(a, w1, Open(r), 0, o);
  }

  /** No closing tag of `r` starts inside the opening tag of `x`. */
  lemma {:induction false} OpenedTag(x: string, r: string, w: string)
    requires Lacks(x, '<') && |x| > 0 && x[0] != '/'
    ensures NoneBefore(Open(x) + w, Close(r), |Open(x)|)
  {
    assert Open(x)[1] == x[0] && Close(r)[1] == '/';
    assert Open(x)[1..] == x + ">";
    NoneInTag(Open(x), w, Close(r), 1);
  }

  /** Two rules whose closing tags part before either ends: they begin
      differently, or they differ and neither holds `>`. */
  predicate ClosesApart(q: string, r: string)
  {
    |q| > 0 && |r| > 0 && (q[0] != r[0] || (q != r && Lacks(q, '>') && Lacks(r, '>')))
  }

  /** No closing tag of `r` starts inside the closing tag of `q`. */
  lemma {:induction false} ClosedTag(q: string, r: string, w: string)
    requires Lacks(q, '<') && ClosesApart(q, r)
    ensures NoneBefore(Close(q) + w, Close(r), |Close(q)|)
  {
    var d := CloseMismatch(q, r);
    assert Close(q)[1..] == "/" + q + ">";
    NoneInTag(Close(q), w, Close(r), d);
  }

  /** A position inside both closing tags where they differ. */
  lemma {:induction false} CloseMismatch(q: string, r: string) returns (d: nat)
    requires ClosesApart(q, r)
    ensures 0 < d < |Close(q)| && d < |Close(r)| && Close(q)[d] != Close(r)[d]
  {
    if q[0] != r[0] {
      d := 2;
      assert Close(q)[2] == q[0] && Close(r)[2] == r[0];
    } else if |q| < |r| {
      d := |q| + 2;
      assert Close(q)[d] == '>' && Close(r)[d] == r[|q|];
    } else if |r| < |q| {
      d := |r| + 2;
      assert Close(r)[d] == '>' && Close(q)[d] == q[|r|];
    } else {
      var k :| 0 <= k < |q| && q[k] != r[k];
      d := k + 2;
      assert Close(q)[d] == q[k] && Close(r)[d] == r[k];
    }
  }

  /** The block's text, nested to the right. */
  lemma {:induction false} Nest(a: string, o: string, b1: string, oq: string, b2: string, cq: string, b3: string, cl: string, c: string)
    ensures a + o + (b1 + oq + b2 + cq + b3) + cl + c == a + (o + (b1 + (oq + (b2 + (cq + (b3 + (cl + c)))))))
    ensures a + o + (b1 + oq + b2 + cq + b3) + cl + c == a + o + (b1 + oq + b2 + cq + b3) + (cl + c)
  {
  }
}
