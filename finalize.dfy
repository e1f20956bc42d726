/** Rendering: get() (templatte.php:456-509) and create_urls
    (templatte.php:614-642). Repeat blocks still in the text are deleted,
    every if rule still in the text is applied as false, URL: placeholders
    are resolved, and the security token is taken away from before `}`. */
module Finalize {
  import opened Text
  import opened Escape
  import opened Values
  import opened Conditional
  import opened Repeat
  import opened Scan
  import opened Token

  const RepeatLead: string := "<repeat:"

  /** One turn of get()'s first loop at a `<repeat:` found at `st`: the tag
      name runs to the first `T>` behind it; when that name holds no `>`
      and its closing tag follows, the whole block is cut out. None when
      nothing is cut. */
  function CutAt(s: string, tok: string, st: nat): (r: Option<string>)
    requires st + 8 <= |s|
    ensures r.Some? ==> st <= |r.value| < |s|
  {
    match IndexOf(s, tok + ">", st + 8)
    case None => None
    case Some(tp) => CutNamed(s, st, s[st + 1..tp + |tok|])
  }

  /** The cut for the tag name `name` of the `<repeat:` at `st`. */
  function CutNamed(s: string, st: nat, name: string): (r: Option<string>)
    requires st + |name| <= |s|
    ensures r.Some? ==> st <= |r.value| < |s|
  {
    if !Lacks(name, '>') then None
    else
      match IndexOf(s, Close(name), st + |name|)
      case None => None
      case Some(en) => Some(Splice(s, "", st, en + |name| + 3 - st))
  }

  /** The first loop of get() from the offset `last`: after a cut the
      search goes on where the block began, otherwise eight characters
      further. */
  function SweepRepeats(s: string, tok: string, last: nat): (r: string)
    requires last <= |s|
    ensures |r| <= |s|
    decreases |s|, |s| - last
  {
    match IndexOf(s, RepeatLead, last)
    case None => s
    case Some(st) =>
      match CutAt(s, tok, st)
      case None => SweepRepeats(s, tok, st + 8)
      case Some(s') => SweepRepeats(s', tok, st)
  }

  /** The if rules left in the text: the captures of `<(if:.*T)>`. */
  function IfNames(s: string, tok: string): (r: seq<string>)
    ensures forall n :: n in r ==> |n| >= 3 + |tok| && n[..3] == "if:"
  {
    Captures(s, "<", "if:", tok, ">")
  }

  /** Every left-over rule may be applied as false. */
  predicate SweepSafe(names: seq<string>)
  {
    forall i :: 0 <= i < |names| ==> IfRuleSafe(names[i], false)
  }

  /** The second step of get(): replace_if(name, false, text) for every
      left-over rule in turn. The result is (text, template); the template
      changes only through replace_if's fallback for a text that is not
      truthy. */
  function IfSweep(s: string, template: string, names: seq<string>): (res: (string, string))
    requires SweepSafe(names)
    ensures |res.1| <= |template|
    decreases |names|
  {
    if names == [] then (s, template)
    else
      var (s1, t1) := ReplaceIfSpec(template, names[0], false, Some(s));
      IfSweep(s1, t1, names[1..])
  }

  /** The URL placeholders of the template: the captures of `{(URL:.*)T}`. */
  function UrlNames(template: string, tok: string): (r: seq<string>)
    ensures forall n :: n in r ==> |n| >= 4 && n[..4] == "URL:"
  {
    Captures(template, "{", "URL:", "", tok + "}")
  }

  /** create_urls' loop: every name not met before is resolved once, its
      text escaped by default, and every `{nameT}` of the text replaced. */
  function CreateUrlsFrom(s: string, names: seq<string>, seen: set<string>, tok: string, url: string -> string): string
    requires forall n :: n in names ==> |n| >= 4
    decreases |names|
  {
    if names == [] then s
    else if names[0] in seen then CreateUrlsFrom(s, names[1..], seen, tok, url)
    else
      var repl := EscapeDefault(url(names[0][4..]));
      CreateUrlsFrom(ReplaceAll(s, "{" + names[0] + tok + "}", repl), names[1..], seen + {names[0]}, tok, url)
  }

  /** create_urls(text): the placeholders are looked up in the template,
      the replacements are made in the text. */
  function CreateUrlsSpec(s: string, template: string, tok: string, url: string -> string): string
  {
    CreateUrlsFrom(s, UrlNames(template, tok), {}, tok, url)
  }

  /** Every if rule left after the repeat sweep may be applied as false. */
  predicate GetSafe(template: string, tok: string)
  {
    SweepSafe(IfNames(SweepRepeats(template, tok, 0), tok))
  }

  /** get(): the result is (rendered text, template afterwards). */
  function GetSpec(template: string, tok: string, url: string -> string, urls: bool): (res: (string, string))
    requires GetSafe(template, tok)
    ensures |res.1| <= |template|
  {
    var swept := SweepRepeats(template, tok, 0);
    var (s1, t1) := IfSweep(swept, template, IfNames(swept, tok));
    var s2 := if urls then CreateUrlsSpec(s1, t1, tok, url) else s1;
    (Unwrap(s2, tok), t1)
  }

  // ---------------------------------------------------------------------
  // The repeat sweep.

  /** Text without `<` from the offset on ends the sweep. */
  lemma {:induction false} SweepPlain(s: string, tok: string, last: nat)
    requires last <= |s|
    requires forall i :: last <= i < |s| ==> s[i] != '<'
    ensures SweepRepeats(s, tok, last) == s
  {
    NoOccurrenceWithout(s, RepeatLead, last, |s|);
    IndexOfNone(s, RepeatLead, last);
  }

  /** One block found and cut out, unfolded. */
  lemma {:induction false} SweepStep(s: string, tok: string, last: nat, st: nat, s': string)
    requires last <= |s|
    requires IndexOf(s, RepeatLead, last) == Some(st) && CutAt(s, tok, st) == Some(s')
    ensures SweepRepeats(s, tok, last) == SweepRepeats(s', tok, st)
  {
  }

  /** No `<repeat:` from the offset on: the sweep is done. */
  lemma {:induction false} SweepDone(s: string, tok: string, last: nat)
    requires last <= |s| && IndexOf(s, RepeatLead, last).None?
    ensures SweepRepeats(s, tok, last) == s
  {
  }

  /** One turn of get()'s first loop: after a cut the text is shorter,
      otherwise the offset moves on; either way the sweep's result is kept. */
  lemma {:induction false} SweepTurn(s: string, tok: string, last: nat, st: nat, cut: Option<string>, s': string, last': nat)
    requires last <= |s| && IndexOf(s, RepeatLead, last) == Some(st)
    requires cut == CutAt(s, tok, st)
    requires s' == (if cut.Some? then cut.value else s) && last' == (if cut.Some? then st else st + 8)
    ensures st + 8 <= |s| && last' <= |s'|
    ensures |s'| < |s| || (s' == s && last < last')
    ensures SweepRepeats(s', tok, last') == SweepRepeats(s, tok, last)
  {
  }

  /** One turn of get()'s second loop, over the names from `i` on. */
  lemma {:induction false} IfSweepTurn(s: string, t: string, names: seq<string>, i: nat, s': string, t': string)
    requires i < |names| && SweepSafe(names[i..])
    requires (s', t') == ReplaceIfSpec(t, names[i], false, Some(s))
    ensures SweepSafe(names[i + 1..])
    ensures IfSweep(s', t', names[i + 1..]) == IfSweep(s, t, names[i..])
  {
    assert names[i..][0] == names[i] && names[i..][1..] == names[i + 1..];
  }

  /** The cut at a `<repeat:` whose tag name ends at `tp`. */
  lemma {:induction false} CutAtFound(s: string, tok: string, st: nat, tp: nat)
    requires st + 8 <= |s|
    requires IndexOf(s, tok + ">", st + 8) == Some(tp)
    ensures st + 1 <= tp + |tok| <= |s|
    ensures CutAt(s, tok, st) == CutNamed(s, st, s[st + 1..tp + |tok|])
  {
  }

  /** The tag name as get() takes it: substr from behind the `<` up to
      the token's end, the `>` left out. */
  lemma {:induction false} CutName(s: string, tok: string, st: nat, tp: nat, chars: int, name: string)
    requires st + 8 <= |s|
    requires IndexOf(s, tok + ">", st + 8) == Some(tp)
    requires chars == tp + |tok| + 1 - st && name == Substr(s, st + 1, chars - 2)
    ensures st + |name| <= |s|
    ensures CutAt(s, tok, st) == CutNamed(s, st, name)
  {
    CutAtFound(s, tok, st, tp);
  }

  /** The cut once the name is known: none when the name holds a `>`,
      otherwise the splice up to the end of the closing tag, if any. */
  lemma {:induction false} CutNamedBy(s: string, st: nat, name: string, gt: Option<nat>, en: Option<nat>)
    requires st + |name| <= |s|
    requires gt == IndexOf(name, ">", 0) && (gt.None? ==> en == IndexOf(s, Close(name), st + |name|))
    ensures gt.Some? ==> CutNamed(s, st, name).None?
    ensures gt.None? && en.None? ==> CutNamed(s, st, name).None?
    ensures gt.None? && en.Some? ==> CutNamed(s, st, name) == Some(Splice(s, "", st, en.value + |name| + 3 - st))
  {
    IndexOfChar(name, '>');
  }

  /** The cut, when the name holds no `>` and its closing tag is where the
      caller says. */
  lemma {:induction false} CutNamedIs(s: string, st: nat, name: string, en: nat)
    requires st + |name| <= |s| && Lacks(name, '>')
    requires IndexOf(s, Close(name), st + |name|) == Some(en)
    ensures CutNamed(s, st, name) == Some(Splice(s, "", st, en + |name| + 3 - st))
  {
  }

  /** A repeat block that no iteration was bound to, or one that is left
      behind its iterations, is cut out of the rendered text together with
      its tags; the text around it is kept. */
  lemma {:induction false} SweepBlock(a: string, n: string, b: string, c: string, tok: string)
    requires IsToken(tok)
    requires Lacks(a, '<') && Lacks(b, '<') && Lacks(c, '<') && Lacks(n, '<') && Lacks(n, '>')
    ensures SweepRepeats(a + Open("repeat:" + n + tok) + b + Close("repeat:" + n + tok) + c, tok, 0) == a + c
  {
    var name := "repeat:" + n + tok;
    NameChars(n, tok);
    var blk := Open(name) + b + Close(name) + c;
    var tp, en := 8 + |n|, |Open(name)| + |b|;
    BlockFacts(n, tok, b, c, name, blk, tp, en);
    var st, wtp, wen := |a|, |a| + tp, |a| + en;
    ShiftFacts(a, blk, tok, name, Close(name), tp, en, st, wtp, wen);
    var s := a + blk;
    Regroup(a, Open(name), b, Close(name), c);
    SweepCut(s, tok, st, wtp, name, wen);
    DropBlock(a, name, b, c, st, wen);
    TailLacks(a, c, '<');
    SweepPlain(a + c, tok, st);
  }

  lemma {:induction false} NameChars(n: string, tok: string)
    requires IsToken(tok) && Lacks(n, '<') && Lacks(n, '>')
    ensures Lacks(tok, '>')
    ensures var name := "repeat:" + n + tok;
      |name| > 0 && Lacks(name, '<') && Lacks(name, '>')
  {
    TokenChars(tok);
  }

  /** Where the sweep finds the parts of a block that starts the text. */
  lemma {:induction false} BlockFacts(n: string, tok: string, b: string, c: string, name: string, blk: string, tp: nat, en: nat)
    requires Lacks(n, '>') && Lacks(tok, '>') && Lacks(b, '<')
    requires name == "repeat:" + n + tok && |name| > 0 && Lacks(name, '<')
    requires blk == Open(name) + b + Close(name) + c
    requires tp == 8 + |n| && en == |Open(name)| + |b|
    ensures IndexOf(blk, RepeatLead, 0) == Some(0)
    ensures IndexOf(blk, tok + ">", 8) == Some(tp) && tp + |tok| <= |blk| && blk[1..tp + |tok|] == name
    ensures IndexOf(blk, Close(name), |name|) == Some(en)
  {
    var rest := b + Close(name) + c;
    Regroup4(Open(name), b, Close(name), c);
    LeadAtStart(n, tok, rest);
    TokenCloseAtStart(n, tok, rest);
    assert tp + |tok| == |name| + 1;
    CloseAtStart(name, b, c, blk, en);
  }

  /** The same facts behind text without `<`. */
  lemma {:induction false} ShiftFacts(a: string, blk: string, tok: string, name: string, cl: string, tp: nat, en: nat, st: nat, wtp: nat, wen: nat)
    requires Lacks(a, '<')
    requires IndexOf(blk, RepeatLead, 0) == Some(0)
    requires IndexOf(blk, tok + ">", 8) == Some(tp) && tp + |tok| <= |blk| && blk[1..tp + |tok|] == name
    requires IndexOf(blk, cl, |name|) == Some(en)
    requires st == |a| && wtp == st + tp && wen == st + en
    ensures IndexOf(a + blk, RepeatLead, 0) == Some(st)
    ensures IndexOf(a + blk, tok + ">", st + 8) == Some(wtp)
    ensures wtp + |tok| <= |a + blk| && (a + blk)[st + 1..wtp + |tok|] == name
    ensures IndexOf(a + blk, cl, st + |name|) == Some(wen)
  {
    IndexOfBehind(a, blk, RepeatLead);
    IndexOfFromAt(a, blk, tok + ">", 8, st + 8, tp, wtp);
    IndexOfFromAt(a, blk, cl, |name|, st + |name|, en, wen);
    NameBehind(a, blk, tp + |tok|, st + 1, wtp + |tok|);
  }

  lemma {:induction false} NameBehind(a: string, blk: string, e: nat, lo: nat, hi: nat)
    requires e <= |blk| && 1 <= e && lo == |a| + 1 && hi == |a| + e
    ensures hi <= |a + blk| && (a + blk)[lo..hi] == blk[1..e]
  {
    assert (a + blk)[lo..hi] == blk[1..e];
  }

  /** The sweep at a block whose name and closing tag are found. */
  lemma {:induction false} SweepCut(s: string, tok: string, st: nat, tp: nat, name: string, en: nat)
    requires IndexOf(s, RepeatLead, 0) == Some(st)
    requires IndexOf(s, tok + ">", st + 8) == Some(tp)
    requires tp + |tok| <= |s| && s[st + 1..tp + |tok|] == name && Lacks(name, '>')
    requires IndexOf(s, Close(name), st + |name|) == Some(en)
    ensures en + |name| + 3 <= |s|
    ensures SweepRepeats(s, tok, 0) == SweepRepeats(Splice(s, "", st, en + |name| + 3 - st), tok, st)
  {
    CutAtFound(s, tok, st, tp);
    CutNamedIs(s, st, name, en);
    SweepStep(s, tok, 0, st, Splice(s, "", st, en + |name| + 3 - st));
  }

  lemma {:induction false} LeadAtStart(n: string, tok: string, rest: string)
    ensures IndexOf(Open("repeat:" + n + tok) + rest, RepeatLead, 0) == Some(0)
  {
    RepeatTagSplit(n, tok, rest);
    var blk := RepeatLead + (n + tok + ">" + rest);
    assert blk[..8] == RepeatLead;
    IndexOfIs(blk, RepeatLead, 0, 0);
  }

  lemma {:induction false} TokenCloseAtStart(n: string, tok: string, rest: string)
    requires Lacks(n, '>') && Lacks(tok, '>')
    ensures var name := "repeat:" + n + tok;
      IndexOf(Open(name) + rest, tok + ">", 8) == Some(8 + |n|) && (Open(name) + rest)[1..|name| + 1] == name
  {
    RepeatTagSplit(n, tok, rest);
    TokenBehindLead(n, tok, rest);
    NameAfterLt("repeat:" + n + tok, rest);
  }

  lemma {:induction false} RepeatTagSplit(n: string, tok: string, rest: string)
    ensures Open("repeat:" + n + tok) + rest == RepeatLead + (n + tok + ">" + rest)
  {
    OpenRepeat(n, tok);
  }

  lemma {:induction false} TokenBehindLead(n: string, tok: string, rest: string)
    requires Lacks(n, '>') && Lacks(tok, '>')
    ensures IndexOf(RepeatLead + (n + tok + ">" + rest), tok + ">", 8) == Some(8 + |n|)
  {
    FirstTokenClose(n, tok, rest);
    IndexOfFrom(RepeatLead, n + tok + ">" + rest, tok + ">", 0, 8);
  }

  lemma {:induction false} NameAfterLt(name: string, rest: string)
    ensures (Open(name) + rest)[1..|name| + 1] == name
  {
    assert (Open(name) + rest)[1..|name| + 1] == Open(name)[1..|name| + 1];
  }

  lemma {:induction false} OpenRepeat(n: string, tok: string)
    ensures Open("repeat:" + n + tok) == RepeatLead + (n + tok + ">")
  {
    var x := "repeat:" + n + tok;
    assert "<" + x == RepeatLead + (n + tok);
  }

  /** The first `T>` behind a name free of `>` is the one that ends it. */
  lemma {:induction false} FirstTokenClose(n: string, tok: string, rest: string)
    requires Lacks(n, '>') && Lacks(tok, '>')
    ensures IndexOf(n + tok + ">" + rest, tok + ">", 0) == Some(|n|)
  {
    var u := n + tok + ">" + rest;
    var pat := tok + ">";
    forall j | 0 <= j < |n|
      ensures !Occurs(u, pat, j)
    {
      var k := j + |tok|;
      assert u[k] != '>' by {
        if k < |n| {
          assert u[k] == n[k];
        } else {
          assert u[k] == tok[k - |n|];
        }
      }
      if j + |pat| <= |u| {
        assert u[j..j + |pat|][|tok|] == u[k];
      }
    }
    assert u[|n|..|n| + |pat|] == pat;
    IndexOfIs(u, pat, 0, |n|);
  }

  lemma {:induction false} CloseAtStart(name: string, b: string, c: string, s: string, en: nat)
    requires Lacks(name, '<') && Lacks(b, '<') && |name| > 0
    requires s == Open(name) + b + Close(name) + c && en == |Open(name)| + |b|
    ensures IndexOf(s, Close(name), |name|) == Some(en)
  {
    var lo := |Open(name)|;
    forall i | |name| <= i < en
      ensures s[i] != '<'
    {
      if i < lo {
        assert s[i] == Open(name)[i];
        if i <= |name| {
          assert Open(name)[i] == name[i - 1];
        }
      } else {
        assert s[i] == b[i - lo];
      }
    }
    NoOccurrenceWithout(s, Close(name), |name|, en);
    assert s[en..en + |Close(name)|] == Close(name);
    IndexOfIs(s, Close(name), |name|, en);
  }

  lemma {:induction false} DropBlock(a: string, name: string, b: string, c: string, st: nat, en: nat)
    requires st == |a| && en == st + |Open(name)| + |b|
    ensures en + |name| + 3 <= |a + (Open(name) + b + Close(name) + c)|
    ensures Splice(a + (Open(name) + b + Close(name) + c), "", st, en + |name| + 3 - st) == a + c
  {
    var blk := Open(name) + b + Close(name) + c;
    var s := a + blk;
    var e := en + |name| + 3;
    assert s[..st] == a;
    assert blk[|Open(name)| + |b| + |Close(name)|..] == c;
    assert s[e..] == c;
  }

  // ---------------------------------------------------------------------
  // Tags that get() meets.

  /** No `<repeat:` in text from which `<` is absent. */
  lemma {:induction false} LeadNone(s: string)
    requires Lacks(s, '<')
    ensures IndexOf(s, RepeatLead, 0).None?
  {
    NoOccurrenceLacking(s, RepeatLead);
    IndexOfNone(s, RepeatLead, 0);
  }

  /** No `<repeat:` behind text without `<` when there is none in the rest. */
  lemma {:induction false} LeadBehind(p: string, s: string)
    requires Lacks(p, '<') && IndexOf(s, RepeatLead, 0).None?
    ensures IndexOf(p + s, RepeatLead, 0).None?
  {
    IndexOfBehind(p, s, RepeatLead);
  }

  /** A tag that does not start with `r` is no `<repeat:`. */
  lemma {:induction false} LeadSkipTag(x: string, rest: string)
    requires Lacks(x, '<') && |x| > 0 && x[0] != 'r'
    requires IndexOf(rest, RepeatLead, 0).None?
    ensures IndexOf("<" + x + rest, RepeatLead, 0).None?
  {
    var u := x + rest;
    var s := "<" + u;
    assert "<" + x + rest == s;
    LeadBehind(x, rest);
    IndexOfFrom("<", u, RepeatLead, 0, 1);
    if |s| >= 8 {
      assert s[..8][1] == x[0];
    }
  }

  /** A block with tags of rule `r`, where `r` does not start with `r`, adds
      no `<repeat:` to the text behind it. */
  lemma {:induction false} BlockLeadFree(a: string, r: string, b: string, c: string)
    requires Lacks(a, '<') && Lacks(r, '<') && Lacks(b, '<') && |r| > 0 && r[0] != 'r'
    requires IndexOf(c, RepeatLead, 0).None?
    ensures IndexOf(a + Open(r) + b + Close(r) + c, RepeatLead, 0).None?
  {
    var close := "/" + r + ">";
    assert Close(r) + c == "<" + close + c;
    LeadSkipTag(close, c);
    var rest := b + (Close(r) + c);
    LeadBehind(b, Close(r) + c);
    assert Open(r) + rest == "<" + (r + ">") + rest;
    LeadSkipTag(r + ">", rest);
    LeadBehind(a, Open(r) + rest);
    assert a + (Open(r) + rest) == a + Open(r) + b + Close(r) + c;
  }

  /** A tag whose text does not begin with `if:` adds no if rule. */
  lemma {:induction false} IfNamesSkip(x: string, rest: string, tok: string)
    requires Lacks(x, '<') && |x| >= 2 && (x[0] == '/' || (|x| >= 3 && x[..3] != "if:"))
    ensures IfNames("<" + x + rest, tok) == IfNames(rest, tok)
  {
    var s := "<" + (x + rest);
    assert "<" + x + rest == s;
    var lh := "<" + "if:";
    if |s| >= 4 {
      assert s[..4][1] == x[0];
      if x[0] != '/' {
        assert s[..4][1..] == x[..3];
        assert lh[1..] == "if:";
      }
      assert s[..4] != lh by {
        assert lh[1] == 'i';
      }
    }
    CapturesSkip(s, "<", "if:", tok, ">");
    assert s[1..] == x + rest;
    CapturesBehind(x, rest, "<", "if:", tok, ">");
  }

  /** A closing tag adds no if rule. */
  lemma {:induction false} IfNamesClose(r: string, c: string, tok: string)
    requires Lacks(r, '<')
    ensures IfNames(Close(r) + c, tok) == IfNames(c, tok)
  {
    var close := "/" + r + ">";
    assert Close(r) + c == "<" + close + c;
    CloseTagText(r);
    IfNamesSkip(close, c, tok);
  }

  /** A negative opening tag and the text behind it up to the next `<` add
      no if rule. */
  lemma {:induction false} IfNamesNegOpen(nr: string, b: string, rest: string, tok: string)
    requires Lacks(nr, '<') && Lacks(b, '<') && |nr| >= 4 && nr[..4] == "if!:"
    ensures IfNames(Open(nr) + b + rest, tok) == IfNames(rest, tok)
  {
    var inner := nr + ">" + b;
    LacksJoin(nr, ">", b, '<');
    assert inner[..3][2] == nr[..4][2] == '!';
    assert Open(nr) + b + rest == "<" + inner + rest;
    IfNamesSkip(inner, rest, tok);
  }

  /** A negative block adds no if rule to the text behind it. */
  lemma {:induction false} IfNamesNegative(a: string, nr: string, b: string, c: string, tok: string)
    requires Lacks(a, '<') && Lacks(nr, '<') && Lacks(b, '<') && |nr| >= 4 && nr[..4] == "if!:"
    ensures IfNames(a + Open(nr) + b + Close(nr) + c, tok) == IfNames(c, tok)
  {
    var rest := Close(nr) + c;
    IfNamesClose(nr, c, tok);
    IfNamesNegOpen(nr, b, rest, tok);
    var w := Open(nr) + b + rest;
    CapturesBehind(a, w, "<", "if:", tok, ">");
    JoinAfter(a, Open(nr), b, Close(nr), c);
  }

  /** Regrouping a block behind the text in front of it. */
  lemma {:induction false} JoinAfter(a: string, o: string, b: string, cl: string, c: string)
    ensures a + (o + b + (cl + c)) == a + o + b + cl + c
  {
  }

  /** The captures of `<(if:.*T)>` at a positive opening tag `<if:N T>`:
      the rule, then what follows. */
  lemma {:induction false} IfNamesFirst(a: string, n: string, tok: string, rest: string)
    requires IsToken(tok) && Lacks(a, '<') && Lacks(n, '>') && Lacks(n, '\n')
    ensures IfNames(a + Open("if:" + n + tok) + rest, tok) == ["if:" + n + tok] + IfNames(rest, tok)
  {
    var lead, head, gtail, after := "<", "if:", tok, ">";
    TokenTailFree(n, tok, '>', gtail + after);
    CapturesFirst(n, rest, lead, head, gtail, after);
    var u := lead + head + (n + (gtail + after) + rest);
    CapturesBehind(a, u, lead, head, gtail, after);
    IfTagPieces(a, n, tok, rest, u);
  }

  lemma {:induction false} IfTagPieces(a: string, n: string, tok: string, rest: string, u: string)
    requires u == "<" + "if:" + (n + (tok + ">") + rest)
    ensures a + Open("if:" + n + tok) + rest == a + u
  {
  }

  /** The text of a closing tag behind its `<`. */
  lemma {:induction false} CloseTagText(r: string)
    requires Lacks(r, '<')
    ensures Lacks("/" + r + ">", '<') && |"/" + r + ">"| >= 2 && ("/" + r + ">")[0] == '/'
  {
    LacksJoin("/", r, ">", '<');
  }

  /** A positive block adds its rule, and only that, to the rules of the
      text behind it. */
  lemma {:induction false} IfNamesPositive(a: string, n: string, b: string, c: string, tok: string)
    requires IsToken(tok) && Lacks(a, '<') && Lacks(b, '<') && Lacks(n, '<') && Lacks(n, '>') && Lacks(n, '\n')
    ensures var r := "if:" + n + tok;
      IfNames(a + Open(r) + b + Close(r) + c, tok) == [r] + IfNames(c, tok)
  {
    TokenChars(tok);
    var r := "if:" + n + tok;
    LacksJoin("if:", n, tok, '<');
    IfNamesClose(r, c, tok);
    var rest := b + (Close(r) + c);
    CapturesBehind(b, Close(r) + c, "<", "if:", tok, ">");
    IfNamesFirst(a, n, tok, rest);
    JoinBlock(a, Open(r), b, Close(r), c);
  }

  /** Regrouping a block behind its opening tag. */
  lemma {:induction false} JoinBlock(a: string, o: string, b: string, cl: string, c: string)
    ensures a + o + (b + (cl + c)) == a + o + b + cl + c
  {
  }

  /** The token's `T` and a closing character cannot begin inside a name
      free of that character. */
  lemma {:induction false} TokenTailFree(p: string, tok: string, close: char, tail: string)
    requires IsToken(tok) && Lacks(p, close) && (close == '}' || close == '>')
    requires tail == tok + [close]
    ensures forall j :: 0 <= j < |p| ==> !Occurs(p + tail, tail, j)
  {
    TokenChars(tok);
    var x := p + tail;
    forall j | 0 <= j < |p|
      ensures !Occurs(x, tail, j)
    {
      var k := j + |tok|;
      assert x[k] != close by {
        if k < |p| {
          assert x[k] == p[k];
        } else {
          assert x[k] == tok[k - |p|];
        }
      }
      assert x[j..j + |tail|][|tok|] == x[k];
    }
  }

  // ---------------------------------------------------------------------
  // URL placeholders.

  /** A template without `{` holds no URL placeholder: create_urls leaves
      the text alone, even where the text itself holds one. */
  lemma {:induction false} UrlsOnlyInText(s: string, template: string, tok: string, url: string -> string)
    requires Lacks(template, '{')
    ensures CreateUrlsSpec(s, template, tok, url) == s
  {
    NoCaptures(template, "{", "URL:", "", tok + "}");
  }

  /** A template with one URL placeholder `{URL:P T}`, rendered from the
      same text: the placeholder gives way to the escaped URL of P, and the
      text around it is kept. */
  lemma {:induction false} UrlsSingle(a: string, p: string, c: string, tok: string, url: string -> string)
    requires IsToken(tok)
    requires Lacks(a, '{') && Lacks(p, '}') && Lacks(p, '\n') && Lacks(c, '{')
    ensures var t := a + "{URL:" + p + tok + "}" + c;
      CreateUrlsSpec(t, t, tok, url) == a + EscapeDefault(url(p)) + c
  {
    var name := "URL:" + p;
    var pat := "{" + name + tok + "}";
    var t := a + (pat + c);
    assert a + "{URL:" + p + tok + "}" + c == t;
    UrlsAt(a, p, c, tok, url, name, pat, t);
  }

  lemma {:induction false} UrlsAt(a: string, p: string, c: string, tok: string, url: string -> string, name: string, pat: string, t: string)
    requires IsToken(tok)
    requires Lacks(a, '{') && Lacks(p, '}') && Lacks(p, '\n') && Lacks(c, '{')
    requires name == "URL:" + p && pat == "{" + name + tok + "}" && t == a + (pat + c)
    ensures CreateUrlsSpec(t, t, tok, url) == a + EscapeDefault(url(p)) + c
  {
    UrlCaptures(a, p, c, tok, name, pat);
    assert name[4..] == p;
    var repl := EscapeDefault(url(p));
    UrlsOneName(t, t, name, tok, url);
    PlaceholderOnce(a, pat, c, repl);
  }

  /** create_urls with one placeholder name replaces it once. */
  lemma {:induction false} UrlsOneName(s: string, t: string, name: string, tok: string, url: string -> string)
    requires UrlNames(t, tok) == [name]
    ensures |name| >= 4
    ensures CreateUrlsSpec(s, t, tok, url) == ReplaceAll(s, "{" + name + tok + "}", EscapeDefault(url(name[4..])))
  {
    var names := UrlNames(t, tok);
    assert name in names;
    var s1 := ReplaceAll(s, "{" + name + tok + "}", EscapeDefault(url(name[4..])));
    assert names[1..] == [];
    assert CreateUrlsFrom(s1, [], {name}, tok, url) == s1;
    assert CreateUrlsFrom(s, names, {}, tok, url) == s1;
  }

  /** The captures of a template holding one URL placeholder. */
  lemma {:induction false} UrlCaptures(a: string, p: string, c: string, tok: string, name: string, pat: string)
    requires IsToken(tok)
    requires Lacks(a, '{') && Lacks(p, '}') && Lacks(p, '\n') && Lacks(c, '{')
    requires name == "URL:" + p && pat == "{" + name + tok + "}"
    ensures UrlNames(a + (pat + c), tok) == [name]
  {
    var lead, head, gtail, after := "{", "URL:", "", tok + "}";
    TokenTailFree(p, tok, '}', gtail + after);
    CapturesFirst(p, c, lead, head, gtail, after);
    NoCaptures(c, lead, head, gtail, after);
    var u := lead + head + (p + (gtail + after) + c);
    CapturesBehind(a, u, lead, head, gtail, after);
    UrlPieces(a, p, c, tok, name, pat, u);
  }

  lemma {:induction false} UrlPieces(a: string, p: string, c: string, tok: string, name: string, pat: string, u: string)
    requires name == "URL:" + p && pat == "{" + name + tok + "}"
    requires u == "{" + "URL:" + (p + ("" + (tok + "}")) + c)
    ensures a + (pat + c) == a + u
    ensures "URL:" + p + "" == name
  {
  }

  // ---------------------------------------------------------------------
  // Rendering as a whole.

  /** When the sweep leaves no `<` and the template holds no `{`, no if
      rule and no URL placeholder is left: rendering only takes the token
      away, and the template is kept. */
  lemma {:induction false} GetAfterSweep(t: string, tok: string, url: string -> string, urls: bool)
    requires Lacks(SweepRepeats(t, tok, 0), '<') && Lacks(t, '{')
    ensures GetSafe(t, tok)
    ensures GetSpec(t, tok, url, urls).0 == Unwrap(SweepRepeats(t, tok, 0), tok)
    ensures GetSpec(t, tok, url, urls).1 == t
  {
    var swept := SweepRepeats(t, tok, 0);
    NoCaptures(swept, "<", "if:", tok, ">");
    NoCaptures(t, "{", "URL:", "", tok + "}");
  }

  /** Text without tags and placeholders renders as itself, less the
      token. */
  lemma {:induction false} GetPlain(t: string, tok: string, url: string -> string, urls: bool)
    requires Lacks(t, '<') && Lacks(t, '{')
    ensures GetSafe(t, tok)
    ensures GetSpec(t, tok, url, urls).0 == Unwrap(t, tok)
    ensures GetSpec(t, tok, url, urls).1 == t
  {
    SweepPlain(t, tok, 0);
    GetAfterSweep(t, tok, url, urls);
  }

  /** Loading and rendering text without tags and placeholders gives the
      text back: the token wrapped in at load time is all taken away. */
  lemma {:induction false} LoadThenRender(s: string, tok: string, url: string -> string, urls: bool)
    requires IsToken(tok) && Lacks(s, '<') && Lacks(s, '{')
    ensures GetSafe(Wrap(s, tok), tok)
    ensures GetSpec(Wrap(s, tok), tok, url, urls).0 == s
  {
    TokenChars(tok);
    WrapPlainRoundTrip(s, tok);
    WrapBracesLacks(s, tok, '<');
    WrapTagsPlain(WrapBraces(s, tok), [], tok);
    assert WrapBraces(s, tok) + [] == WrapBraces(s, tok);
    WrapBracesLacks(s, tok, '{');
    GetPlain(Wrap(s, tok), tok, url, urls);
  }

  /** get() on a template that the repeat sweep keeps and that holds one
      if rule: the rule is applied as false to the whole text. */
  lemma {:induction false} GetOneRule(t: string, r: string, x: string, tok: string, url: string -> string, urls: bool)
    requires SweepRepeats(t, tok, 0) == t && IfNames(t, tok) == [r] && Lacks(t, '{')
    requires IfRuleSafe(r, false) && ReplaceIfSpec(t, r, false, Some(t)) == (x, t)
    ensures GetSafe(t, tok)
    ensures GetSpec(t, tok, url, urls) == (Unwrap(x, tok), t)
  {
    IfSweepSingle(t, t, r, x, t);
    UrlsOnlyInText(x, t, tok, url);
  }

  /** The if sweep over one rule is one replace_if. */
  lemma {:induction false} IfSweepSingle(s: string, template: string, r: string, s': string, t': string)
    requires IfRuleSafe(r, false) && ReplaceIfSpec(template, r, false, Some(s)) == (s', t')
    ensures SweepSafe([r]) && IfSweep(s, template, [r]) == (s', t')
  {
    assert [r][1..] == [];
  }

  /** get() on a template that the repeat sweep keeps and that holds no if
      rule: only the token is taken away. */
  lemma {:induction false} GetNoRule(t: string, tok: string, url: string -> string, urls: bool)
    requires SweepRepeats(t, tok, 0) == t && IfNames(t, tok) == [] && Lacks(t, '{')
    ensures GetSafe(t, tok)
    ensures GetSpec(t, tok, url, urls) == (Unwrap(t, tok), t)
  {
    UrlsOnlyInText(t, t, tok, url);
  }

  /** The rule of an if block once the token is in its tags. */
  lemma {:induction false} GuardedRule(n: string, tok: string, kw: string)
    requires IsToken(tok) && Lacks(n, '<') && Lacks(n, '{') && Lacks(n, ':')
    requires kw == "if:" || kw == "if!:"
    ensures var r := kw + n + tok;
      |r| >= |kw| && r[..|kw|] == kw && r[0] == 'i' && Lacks(r, '<') && Lacks(r, '{')
  {
    TokenChars(tok);
    LacksJoin(kw, n, tok, '<');
    LacksJoin(kw, n, tok, '{');
    var r := kw + n + tok;
    assert r[..|kw|] == kw;
  }

  /** The negative form of a guarded if rule is the guarded negative rule,
      and text whose only tags are negative holds no positive opening tag. */
  lemma {:induction false} GuardedPair(m: string, d: string, e: string, n: string, tok: string, r: string, nr: string)
    requires IsToken(tok) && Lacks(m, '<') && Lacks(d, '<') && Lacks(e, '<') && Lacks(n, '<') && Lacks(n, ':')
    requires r == "if:" + n + tok && nr == "if!:" + n + tok
    ensures NotRule(r) == nr && IndexOf(m + Open(nr) + d + Close(nr) + e, Open(r), 0).None?
  {
    TokenChars(tok);
    LacksJoin(n, tok, [], '<');
    LacksJoin(n, tok, [], ':');
    var nt := n + tok;
    assert nt + [] == nt;
    assert r == "if:" + nt && nr == "if!:" + nt;
    IfPairRules(m, d, e, nt);
  }

  /** An if block left in the text when the template is rendered: its rule
      counts as false, so the block goes and the text around it is kept,
      less the token. The template is kept too. */
  lemma {:induction false} GetIfHidden(a: string, n: string, b: string, c: string, tok: string, url: string -> string, urls: bool)
    requires IsToken(tok)
    requires Lacks(a, '<') && Lacks(b, '<') && Lacks(c, '<') && Lacks(n, '<')
    requires Lacks(a, '{') && Lacks(b, '{') && Lacks(c, '{') && Lacks(n, '{')
    requires Lacks(n, '>') && Lacks(n, '\n') && Lacks(n, ':')
    ensures var t := a + Open("if:" + n + tok) + b + Close("if:" + n + tok) + c;
      GetSafe(t, tok) && GetSpec(t, tok, url, urls) == (Unwrap(a + c, tok), t)
  {
    var r := "if:" + n + tok;
    var t := a + Open(r) + b + Close(r) + c;
    HiddenScan(a, n, b, c, tok, r, t);
    HiddenCollapse(a, b, c, r, t, t);
    GetOneRule(t, r, a + c, tok, url, urls);
  }

  /** What get()'s two searches find in a template with one if block. */
  lemma {:induction false} HiddenScan(a: string, n: string, b: string, c: string, tok: string, r: string, t: string)
    requires IsToken(tok)
    requires Lacks(a, '<') && Lacks(b, '<') && Lacks(c, '<') && Lacks(n, '<')
    requires Lacks(a, '{') && Lacks(b, '{') && Lacks(c, '{') && Lacks(n, '{')
    requires Lacks(n, '>') && Lacks(n, '\n') && Lacks(n, ':')
    requires r == "if:" + n + tok && t == a + Open(r) + b + Close(r) + c
    ensures SweepRepeats(t, tok, 0) == t && IfNames(t, tok) == [r] && Lacks(t, '{')
    ensures Lacks(r, '<') && |r| > 0 && r[0] == 'i'
  {
    GuardedRule(n, tok, "if:");
    LeadNone(c);
    BlockLeadFree(a, r, b, c);
    SweepDone(t, tok, 0);
    IfNamesPositive(a, n, b, c, tok);
    NoCaptures(c, "<", "if:", tok, ">");
    assert [r] + [] == [r];
    BlockLacks(a, r, b, c, '{');
  }

  /** The if rule of that block applied as false to the whole text. */
  lemma {:induction false} HiddenCollapse(a: string, b: string, c: string, r: string, template: string, f: string)
    requires Lacks(a, '<') && Lacks(b, '<') && Lacks(c, '<') && Lacks(r, '<') && |r| > 0 && r[0] == 'i'
    requires f == a + Open(r) + b + Close(r) + c
    ensures IfRuleSafe(r, false) && ReplaceIfSpec(template, r, false, Some(f)) == (a + c, template)
  {
    assert a + "" + c == a + c;
    IfBlockIn(template, a, b, c, r, false);
  }

  /** A negative if block left alone in the text: get() looks only for
      positive tags, so the block is not processed and keeps its tags;
      only the token is taken away. */
  lemma {:induction false} GetNegativeOnly(a: string, n: string, d: string, e: string, tok: string, url: string -> string, urls: bool)
    requires IsToken(tok)
    requires Lacks(a, '<') && Lacks(d, '<') && Lacks(e, '<') && Lacks(n, '<')
    requires Lacks(a, '{') && Lacks(d, '{') && Lacks(e, '{') && Lacks(n, '{') && Lacks(n, ':')
    ensures var t := a + Open("if!:" + n + tok) + d + Close("if!:" + n + tok) + e;
      GetSafe(t, tok) && GetSpec(t, tok, url, urls) == (Unwrap(t, tok), t)
  {
    var nr := "if!:" + n + tok;
    var t := a + Open(nr) + d + Close(nr) + e;
    NegativeScan(a, n, d, e, tok, nr, t);
    GetNoRule(t, tok, url, urls);
  }

  /** What get()'s two searches find in a template with one negative block. */
  lemma {:induction false} NegativeScan(a: string, n: string, d: string, e: string, tok: string, nr: string, t: string)
    requires IsToken(tok)
    requires Lacks(a, '<') && Lacks(d, '<') && Lacks(e, '<') && Lacks(n, '<')
    requires Lacks(a, '{') && Lacks(d, '{') && Lacks(e, '{') && Lacks(n, '{') && Lacks(n, ':')
    requires nr == "if!:" + n + tok && t == a + Open(nr) + d + Close(nr) + e
    ensures SweepRepeats(t, tok, 0) == t && IfNames(t, tok) == [] && Lacks(t, '{')
  {
    GuardedRule(n, tok, "if!:");
    LeadNone(e);
    BlockLeadFree(a, nr, d, e);
    SweepDone(t, tok, 0);
    IfNamesNegative(a, nr, d, e, tok);
    NoCaptures(e, "<", "if:", tok, ">");
    BlockLacks(a, nr, d, e, '{');
  }

  /** A positive if block and the negative block of the same rule, both left
      in the text: the rule counts as false, so the negative block is shown
      and the positive one goes. */
  lemma {:induction false} GetIfPair(a: string, n: string, b: string, m: string, d: string, e: string, tok: string, url: string -> string, urls: bool)
    requires IsToken(tok)
    requires Lacks(a, '<') && Lacks(b, '<') && Lacks(m, '<') && Lacks(d, '<') && Lacks(e, '<') && Lacks(n, '<')
    requires Lacks(a, '{') && Lacks(b, '{') && Lacks(m, '{') && Lacks(d, '{') && Lacks(e, '{') && Lacks(n, '{')
    requires Lacks(n, '>') && Lacks(n, '\n') && Lacks(n, ':')
    ensures var t := a + Open("if:" + n + tok) + b + Close("if:" + n + tok) + m + Open("if!:" + n + tok) + d + Close("if!:" + n + tok) + e;
      GetSafe(t, tok) && GetSpec(t, tok, url, urls) == (Unwrap(a + m + d + e, tok), t)
  {
    var r := "if:" + n + tok;
    var nr := "if!:" + n + tok;
    var t := a + Open(r) + b + Close(r) + m + Open(nr) + d + Close(nr) + e;
    PairScan(a, n, b, m, d, e, tok, r, nr, t);
    PairCollapse(a, b, m, d, e, r, nr, t, t);
    GetOneRule(t, r, a + m + d + e, tok, url, urls);
  }

  /** What get()'s two searches find in a template with a positive block and
      then a negative one. */
  lemma {:induction false} PairScan(a: string, n: string, b: string, m: string, d: string, e: string, tok: string,
                                    r: string, nr: string, t: string)
    requires IsToken(tok)
    requires Lacks(a, '<') && Lacks(b, '<') && Lacks(m, '<') && Lacks(d, '<') && Lacks(e, '<') && Lacks(n, '<')
    requires Lacks(a, '{') && Lacks(b, '{') && Lacks(m, '{') && Lacks(d, '{') && Lacks(e, '{') && Lacks(n, '{')
    requires Lacks(n, '>') && Lacks(n, '\n') && Lacks(n, ':')
    requires r == "if:" + n + tok && nr == "if!:" + n + tok
    requires t == a + Open(r) + b + Close(r) + m + Open(nr) + d + Close(nr) + e
    ensures SweepRepeats(t, tok, 0) == t && IfNames(t, tok) == [r] && Lacks(t, '{')
    ensures Lacks(r, '<') && |r| > 0 && r[0] == 'i' && Lacks(nr, '<') && |nr| > 0 && nr[0] == 'i'
    ensures NotRule(r) == nr && IndexOf(m + Open(nr) + d + Close(nr) + e, Open(r), 0).None?
  {
    GuardedRule(n, tok, "if:");
    GuardedRule(n, tok, "if!:");
    GuardedPair(m, d, e, n, tok, r, nr);
    var w := m + Open(nr) + d + Close(nr) + e;
    JoinTail(a + Open(r) + b + Close(r), m, Open(nr), d, Close(nr), e);
    assert t == a + Open(r) + b + Close(r) + w;
    LeadNone(e);
    BlockLeadFree(m, nr, d, e);
    BlockLeadFree(a, r, b, w);
    SweepDone(t, tok, 0);
    IfNamesNegative(m, nr, d, e, tok);
    NoCaptures(e, "<", "if:", tok, ">");
    IfNamesPositive(a, n, b, w, tok);
    assert [r] + [] == [r];
    BlockLacks(m, nr, d, e, '{');
    BlockLacks(a, r, b, w, '{');
  }

  /** The if rule of that pair applied as false to the whole text. */
  lemma {:induction false} PairCollapse(a: string, b: string, m: string, d: string, e: string, r: string, nr: string, template: string, f: string)
    requires Lacks(a, '<') && Lacks(b, '<') && Lacks(m, '<') && Lacks(d, '<') && Lacks(e, '<')
    requires Lacks(r, '<') && |r| > 0 && r[0] == 'i' && Lacks(nr, '<') && |nr| > 0 && nr[0] == 'i'
    requires NotRule(r) == nr && IndexOf(m + Open(nr) + d + Close(nr) + e, Open(r), 0).None?
    requires f == a + Open(r) + b + Close(r) + m + Open(nr) + d + Close(nr) + e
    ensures IfRuleSafe(r, false) && ReplaceIfSpec(template, r, false, Some(f)) == (a + m + d + e, template)
  {
    assert a + "" + m + d + e == a + m + d + e;
    IfPairIn(template, a, b, m, d, e, r, nr, false);
  }

  /** An if block nested in another, both left in the text. The outer rule
      is applied first and hides the whole block, the inner one with it; the
      inner rule then runs on what is left, the text `a + c` around the
      block. When that text is truthy in PHP, it is the result. When it is
      "" or "0", replace_if falls back to the template for its negative
      pass, which finds no negative tag there, and get() returns the
      template, both blocks included. The template is kept either way. */
  lemma {:induction false} GetNestedIf(a: string, na: string, b1: string, nb: string, x: string, b3: string, c: string,
                                       tok: string, url: string -> string, urls: bool)
    requires IsToken(tok)
    requires Lacks(a, '<') && Lacks(b1, '<') && Lacks(x, '<') && Lacks(b3, '<') && Lacks(c, '<') && Lacks(na, '<') && Lacks(nb, '<')
    requires Lacks(a, '{') && Lacks(b1, '{') && Lacks(x, '{') && Lacks(b3, '{') && Lacks(c, '{') && Lacks(na, '{') && Lacks(nb, '{')
    requires Lacks(na, '>') && Lacks(na, '\n') && Lacks(nb, '>') && Lacks(nb, '\n') && na != nb
    ensures var qa, qb := "if:" + na + tok, "if:" + nb + tok;
      var t := a + Open(qa) + b1 + Open(qb) + x + Close(qb) + b3 + Close(qa) + c;
      GetSafe(t, tok) && GetSpec(t, tok, url, urls) == (Unwrap(if Truthy(Str(a + c)) then a + c else t, tok), t)
  {
    var qa, qb := "if:" + na + tok, "if:" + nb + tok;
    var t := a + Open(qa) + b1 + Open(qb) + x + Close(qb) + b3 + Close(qa) + c;
    NestedRules(na, nb, tok, qa, qb);
    var out := if Truthy(Str(a + c)) then a + c else t;
    NestedPasses(a, na, b1, nb, x, b3, c, tok, qa, qb, t, out);
    GetTwoRules(t, qa, qb, a + c, out, tok, url, urls);
  }

  /** The searches and the two replace_if calls of get() on the nested text. */
  lemma {:induction false} NestedPasses(a: string, na: string, b1: string, nb: string, x: string, b3: string, c: string,
                                        tok: string, qa: string, qb: string, t: string, out: string)
    requires IsToken(tok)
    requires Lacks(a, '<') && Lacks(b1, '<') && Lacks(x, '<') && Lacks(b3, '<') && Lacks(c, '<') && Lacks(na, '<') && Lacks(nb, '<')
    requires Lacks(a, '{') && Lacks(b1, '{') && Lacks(x, '{') && Lacks(b3, '{') && Lacks(c, '{') && Lacks(na, '{') && Lacks(nb, '{')
    requires Lacks(na, '>') && Lacks(na, '\n') && Lacks(nb, '>') && Lacks(nb, '\n')
    requires Lacks(qa, '<') && Lacks(qb, '<') && |qa| > 3 && |qb| > 3 && qa[..3] == "if:" && qb[..3] == "if:"
    requires ClosesApart(qb, qa)
    requires qa == "if:" + na + tok && qb == "if:" + nb + tok
    requires t == a + Open(qa) + b1 + Open(qb) + x + Close(qb) + b3 + Close(qa) + c
    requires out == if Truthy(Str(a + c)) then a + c else t
    ensures SweepRepeats(t, tok, 0) == t && IfNames(t, tok) == [qa, qb] && Lacks(t, '{')
    ensures IfRuleSafe(qa, false) && IfRuleSafe(qb, false)
    ensures ReplaceIfSpec(t, qa, false, Some(t)) == (a + c, t) && ReplaceIfSpec(t, qb, false, Some(a + c)) == (out, t)
  {
    NestedScan(a, na, b1, nb, x, b3, c, tok, qa, qb, t);
    NestedHide(a, b1, x, b3, c, qa, qb, t);
    NoNegativeTag(a, b1, x, b3, c, qa, qb, t);
    NestedSecond(t, qb, a + c);
  }

  /** get() on a template that the repeat sweep keeps and that holds two
      if rules, each keeping the template: they are applied as false in
      turn, the second to the first one's result. */
  lemma {:induction false} GetTwoRules(t: string, qa: string, qb: string, f: string, out: string, tok: string, url: string -> string, urls: bool)
    requires SweepRepeats(t, tok, 0) == t && IfNames(t, tok) == [qa, qb] && Lacks(t, '{')
    requires IfRuleSafe(qa, false) && IfRuleSafe(qb, false)
    requires ReplaceIfSpec(t, qa, false, Some(t)) == (f, t) && ReplaceIfSpec(t, qb, false, Some(f)) == (out, t)
    ensures GetSafe(t, tok) && GetSpec(t, tok, url, urls) == (Unwrap(out, tok), t)
  {
    NestedSweep(t, qa, qb, f, out);
    UrlsOnlyInText(out, t, tok, url);
  }

  /** The two rules of the nested blocks: if rules without `<` that differ,
      and whose closing tags part before either ends. */
  lemma {:induction false} NestedRules(na: string, nb: string, tok: string, qa: string, qb: string)
    requires IsToken(tok) && Lacks(na, '<') && Lacks(nb, '<') && Lacks(na, '>') && Lacks(nb, '>') && na != nb
    requires qa == "if:" + na + tok && qb == "if:" + nb + tok
    ensures Lacks(qa, '<') && Lacks(qb, '<') && |qa| > 3 && |qb| > 3 && qa[..3] == "if:" && qb[..3] == "if:"
    ensures ClosesApart(qb, qa)
  {
    TokenChars(tok);
    LacksJoin("if:", na, tok, '<');
    LacksJoin("if:", nb, tok, '<');
    LacksJoin("if:", na, tok, '>');
    LacksJoin("if:", nb, tok, '>');
    assert qa[..3] == "if:" && qb[..3] == "if:";
    if |na| == |nb| {
      var k :| 0 <= k < |na| && na[k] != nb[k];
      assert qa[3 + k] == na[k] && qb[3 + k] == nb[k];
    }
  }

  /** What get()'s two searches find in a template with nested if blocks:
      no repeat block, and the outer rule before the inner one. */
  lemma {:induction false} NestedScan(a: string, na: string, b1: string, nb: string, x: string, b3: string, c: string,
                                      tok: string, qa: string, qb: string, t: string)
    requires IsToken(tok)
    requires Lacks(a, '<') && Lacks(b1, '<') && Lacks(x, '<') && Lacks(b3, '<') && Lacks(c, '<') && Lacks(na, '<') && Lacks(nb, '<')
    requires Lacks(a, '{') && Lacks(b1, '{') && Lacks(x, '{') && Lacks(b3, '{') && Lacks(c, '{') && Lacks(na, '{') && Lacks(nb, '{')
    requires Lacks(na, '>') && Lacks(na, '\n') && Lacks(nb, '>') && Lacks(nb, '\n')
    requires Lacks(qa, '<') && Lacks(qb, '<') && |qa| > 3 && |qb| > 3 && qa[..3] == "if:" && qb[..3] == "if:"
    requires qa == "if:" + na + tok && qb == "if:" + nb + tok
    requires t == a + Open(qa) + b1 + Open(qb) + x + Close(qb) + b3 + Close(qa) + c
    ensures SweepRepeats(t, tok, 0) == t && IfNames(t, tok) == [qa, qb] && Lacks(t, '{')
  {
    var w := b3 + (Close(qa) + c);
    var u := b1 + Open(qb) + x + Close(qb) + w;
    NestRight(a, Open(qa), b1, Open(qb), x, Close(qb), b3, Close(qa), c);
    NestedLead(a, b1, x, b3, c, qa, qb, w, u);
    SweepDone(t, tok, 0);
    NestedNames(a, na, b1, nb, x, b3, c, tok, qa, qb, w, u);
    NestedBraces(a, b1, x, b3, c, na, nb, tok, qa, qb, w, u);
  }

  /** The if rules of the nested text: the outer one, then the inner one. */
  lemma {:induction false} NestedNames(a: string, na: string, b1: string, nb: string, x: string, b3: string, c: string,
                                       tok: string, qa: string, qb: string, w: string, u: string)
    requires IsToken(tok)
    requires Lacks(a, '<') && Lacks(b1, '<') && Lacks(x, '<') && Lacks(b3, '<') && Lacks(c, '<') && Lacks(nb, '<')
    requires Lacks(na, '>') && Lacks(na, '\n') && Lacks(nb, '>') && Lacks(nb, '\n') && Lacks(qa, '<')
    requires qa == "if:" + na + tok && qb == "if:" + nb + tok
    requires w == b3 + (Close(qa) + c) && u == b1 + Open(qb) + x + Close(qb) + w
    ensures IfNames(a + Open(qa) + u, tok) == [qa, qb]
  {
    IfNamesClose(qa, c, tok);
    CapturesBehind(b3, Close(qa) + c, "<", "if:", tok, ">");
    NoCaptures(c, "<", "if:", tok, ">");
    IfNamesPositive(b1, nb, x, w, tok);
    assert IfNames(u, tok) == [qb];
    IfNamesFirst(a, na, tok, u);
  }

  /** The nested text, grouped from the right. */
  lemma {:induction false} NestRight(a: string, oa: string, b1: string, ob: string, x: string, cb: string, b3: string, ca: string, c: string)
    ensures a + oa + b1 + ob + x + cb + b3 + ca + c == a + oa + (b1 + ob + x + cb + (b3 + (ca + c)))
    ensures b3 + ca + c == b3 + (ca + c)
  {
  }

  /** No `<repeat:` in the nested text. */
  lemma {:induction false} NestedLead(a: string, b1: string, x: string, b3: string, c: string, qa: string, qb: string, w: string, u: string)
    requires Lacks(a, '<') && Lacks(b1, '<') && Lacks(x, '<') && Lacks(b3, '<') && Lacks(c, '<')
    requires Lacks(qa, '<') && Lacks(qb, '<') && |qa| > 0 && |qb| > 0 && qa[0] == 'i' && qb[0] == 'i'
    requires w == b3 + (Close(qa) + c) && u == b1 + Open(qb) + x + Close(qb) + w
    ensures IndexOf(a + Open(qa) + u, RepeatLead, 0).None?
  {
    LeadNone(c);
    var ca := "/" + qa + ">";
    assert Close(qa) + c == "<" + ca + c;
    CloseTagText(qa);
    LeadSkipTag(ca, c);
    LeadBehind(b3, Close(qa) + c);
    BlockLeadFree(b1, qb, x, w);
    LacksJoin(qa, ">", [], '<');
    assert qa + ">" + [] == qa + ">";
    assert Open(qa) + u == "<" + (qa + ">") + u;
    LeadSkipTag(qa + ">", u);
    LeadBehind(a, Open(qa) + u);
    assert a + (Open(qa) + u) == a + Open(qa) + u;
  }

  /** No `{` in the nested text. */
  lemma {:induction false} NestedBraces(a: string, b1: string, x: string, b3: string, c: string, na: string, nb: string,
                                        tok: string, qa: string, qb: string, w: string, u: string)
    requires IsToken(tok)
    requires Lacks(a, '{') && Lacks(b1, '{') && Lacks(x, '{') && Lacks(b3, '{') && Lacks(c, '{') && Lacks(na, '{') && Lacks(nb, '{')
    requires qa == "if:" + na + tok && qb == "if:" + nb + tok
    requires w == b3 + (Close(qa) + c) && u == b1 + Open(qb) + x + Close(qb) + w
    ensures Lacks(a + Open(qa) + u, '{')
  {
    TokenChars(tok);
    LacksJoin("if:", na, tok, '{');
    LacksJoin("if:", nb, tok, '{');
    LacksJoin("</", qa, ">", '{');
    LacksJoin(b3, Close(qa), c, '{');
    BlockLacks(b1, qb, x, w, '{');
    LacksJoin("<", qa, ">", '{');
    LacksJoin(a, Open(qa), u, '{');
  }

  /** The outer rule hides the whole nested block in the text and keeps
      the template. */
  lemma {:induction false} NestedHide(a: string, b1: string, x: string, b3: string, c: string, qa: string, qb: string, t: string)
    requires Lacks(a, '<') && Lacks(b1, '<') && Lacks(x, '<') && Lacks(b3, '<') && Lacks(c, '<')
    requires Lacks(qa, '<') && Lacks(qb, '<') && |qa| > 3 && |qb| > 3 && qa[..3] == "if:" && qb[..3] == "if:"
    requires ClosesApart(qb, qa)
    requires t == a + Open(qa) + b1 + Open(qb) + x + Close(qb) + b3 + Close(qa) + c
    ensures IfRuleSafe(qa, false) && ReplaceIfSpec(t, qa, false, Some(t)) == (a + c, t)
    ensures Lacks(a + c, '<')
  {
    SafeWithoutLt(qa, false);
    var blk := b1 + Open(qb) + x + Close(qb) + b3;
    var cl: nat := |a| + |Open(qa)| + |blk|;
    assert qa[0] == qa[..3][0] && qb[0] == qb[..3][0];
    NestInner(a, Open(qa), b1, Open(qb), x, Close(qb), b3, Close(qa), c);
    TagsOfIfBlock(a, b1, x, b3, c, qa, qb, t, |a|, cl);
    var f := a + c;
    DropBlock(a, qa, blk, c, |a|, cl);
    CollapseNext(t, qa, false, |a|, cl, f);
    LacksJoin(a, c, [], '<');
    assert a + c + [] == f;
    CollapsePlain(f, qa, false);
    NotRuleChars(qa, '<');
    CollapsePlain(f, NotRule(qa), true);
    OnFragment(t, qa, false, t, f);
  }

  /** The nested text, with the inner block grouped. */
  lemma {:induction false} NestInner(a: string, oa: string, b1: string, ob: string, x: string, cb: string, b3: string, ca: string, c: string)
    ensures a + oa + b1 + ob + x + cb + b3 + ca + c == a + oa + (b1 + ob + x + cb + b3) + ca + c
    ensures a + oa + b1 + ob + x + cb + b3 + ca + c == a + (oa + (b1 + ob + x + cb + b3) + ca + c)
  {
  }

  /** The inner rule on the text left around the block: kept when it is
      truthy; otherwise the negative pass falls back to the template, which
      holds no negative tag and is returned whole. */
  lemma {:induction false} NestedSecond(t: string, qb: string, f: string)
    requires Lacks(qb, '<') && Lacks(f, '<') && IndexOf(t, Open(NotRule(qb)), 0).None?
    ensures IfRuleSafe(qb, false)
    ensures ReplaceIfSpec(t, qb, false, Some(f)) == (if Truthy(Str(f)) then f else t, t)
  {
    SafeWithoutLt(qb, false);
    CollapsePlain(f, qb, false);
    NotRuleChars(qb, '<');
    CollapsePlain(f, NotRule(qb), true);
    CollapseIfStop(t, NotRule(qb), true);
  }

  /** No negative opening tag `<if!:` in the nested text. */
  lemma {:induction false} NoNegativeTag(a: string, b1: string, x: string, b3: string, c: string, qa: string, qb: string, t: string)
    requires Lacks(a, '<') && Lacks(b1, '<') && Lacks(x, '<') && Lacks(b3, '<') && Lacks(c, '<')
    requires Lacks(qa, '<') && Lacks(qb, '<') && |qa| > 3 && |qb| > 3 && qa[..3] == "if:" && qb[..3] == "if:"
    requires t == a + Open(qa) + b1 + Open(qb) + x + Close(qb) + b3 + Close(qa) + c
    ensures IndexOf(t, Open(NotRule(qb)), 0).None?
  {
    var pat := Open(NotRule(qb));
    NegativeHead(qb);
    var u8 := c;
    var u7 := Close(qa) + u8;
    var u6 := b3 + u7;
    var u5 := Close(qb) + u6;
    var u4 := x + u5;
    var u3 := Open(qb) + u4;
    var u2 := b1 + u3;
    var u1 := Open(qa) + u2;
    NoneInLacking(c, [], pat);
    assert c + [] == c;
    CloseApart(qa, u8, pat);
    NoneThrough(Close(qa), u8, pat);
    NoneInLacking(b3, u7, pat);
    NoneThrough(b3, u7, pat);
    CloseApart(qb, u6, pat);
    NoneThrough(Close(qb), u6, pat);
    NoneInLacking(x, u5, pat);
    NoneThrough(x, u5, pat);
    OpenApart(qb, u4, pat);
    NoneThrough(Open(qb), u4, pat);
    NoneInLacking(b1, u3, pat);
    NoneThrough(b1, u3, pat);
    OpenApart(qa, u2, pat);
    NoneThrough(Open(qa), u2, pat);
    NoneInLacking(a, u1, pat);
    NoneThrough(a, u1, pat);
    NestAll(a, Open(qa), b1, Open(qb), x, Close(qb), b3, Close(qa), c);
    NoneAnywhere(t, pat);
  }
  /** The negative opening tag of an if rule begins with `<if!`. */
  lemma {:induction false} NegativeHead(q: string)
    requires |q| > 3 && q[..3] == "if:"
    ensures var p := Open(NotRule(q)); |p| > 3 && p[0] == '<' && p[1] == 'i' && p[3] == '!'
  {
    assert q[..3][2] == ':' && q[..3][0] != ':' && q[..3][1] != ':';
    assert q[2..3] == ":";
    IndexOfIs(q, ":", 0, 2);
    NotRuleAt(q, 2);
    assert q[..2] == "if";
  }

  /** No negative opening tag starts inside a closing tag. */
  lemma {:induction false} CloseApart(q: string, w: string, pat: string)
    requires Lacks(q, '<') && |pat| > 1 && pat[0] == '<' && pat[1] == 'i'
    ensures NoneBefore(Close(q) + w, pat, |Close(q)|)
  {
    assert Close(q)[1..] == "/" + q + ">";
    NoneInTag(Close(q), w, pat, 1);
  }

  /** No negative opening tag starts inside the opening tag of an if rule. */
  lemma {:induction false} OpenApart(q: string, w: string, pat: string)
    requires Lacks(q, '<') && |q| > 3 && q[..3] == "if:" && |pat| > 3 && pat[0] == '<' && pat[3] == '!'
    ensures NoneBefore(Open(q) + w, pat, |Open(q)|)
  {
    assert Open(q)[1..] == q + ">";
    assert Open(q)[3] == q[..3][2];
    NoneInTag(Open(q), w, pat, 3);
  }

  /** The nested text, grouped from the right piece by piece. */
  lemma {:induction false} NestAll(a: string, oa: string, b1: string, ob: string, x: string, cb: string, b3: string, ca: string, c: string)
    ensures a + oa + b1 + ob + x + cb + b3 + ca + c == a + (oa + (b1 + (ob + (x + (cb + (b3 + (ca + c)))))))
  {
  }

  /** get()'s if sweep over the two rules, outer first. */
  lemma {:induction false} NestedSweep(t: string, qa: string, qb: string, f: string, out: string)
    requires IfRuleSafe(qa, false) && IfRuleSafe(qb, false)
    requires ReplaceIfSpec(t, qa, false, Some(t)) == (f, t) && ReplaceIfSpec(t, qb, false, Some(f)) == (out, t)
    ensures SweepSafe([qa, qb]) && IfSweep(t, t, [qa, qb]) == (out, t)
  {
    assert [qa, qb][1..] == [qb];
    IfSweepSingle(f, t, qb, out, t);
  }
  /** Text built from pieces without `ch` holds no `ch` outside its tags. */
  lemma {:induction false} BlockLacks(a: string, r: string, b: string, c: string, ch: char)
    requires Lacks(a, ch) && Lacks(r, ch) && Lacks(b, ch) && Lacks(c, ch)
    requires ch != '<' && ch != '/' && ch != '>'
    ensures Lacks(a + Open(r) + b + Close(r) + c, ch)
  {
  }

  /** A repeat block after its iterations: rendering keeps the filled
      copies and drops the block. */
  lemma {:induction false} RenderRepeat(a: string, n: string, b: string, c: string, rules: seq<(string, Value)>, tok: string, url: string -> string, urls: bool)
    requires IsToken(tok) && NoIfRules(rules)
    requires Lacks(a, '<') && Lacks(b, '<') && Lacks(c, '<') && Lacks(n, '<') && Lacks(n, '>')
    requires Lacks(a, '{') && Lacks(b, '{') && Lacks(c, '{') && Lacks(n, '{')
    requires Lacks(Fill(b, rules, tok), '<') && Lacks(Fill(b, rules, tok), '{')
    ensures NestedSafe(rules, tok)
    ensures var r := "repeat:" + n + tok;
      var bound := RepeatFrom(a + Open(r) + b + Close(r) + c, r, rules, tok, 0);
      GetSafe(bound, tok) && GetSpec(bound, tok, url, urls) == (Unwrap(a + Fill(b, rules, tok) + c, tok), bound)
  {
    TokenChars(tok);
    var r := "repeat:" + n + tok;
    assert Lacks(r, '<') && Lacks(r, '{') && r[0] != '/';
    RepeatOnce(a, b, c, r, rules, tok);
    var a' := a + Fill(b, rules, tok);
    var bound := a' + Open(r) + b + Close(r) + c;
    assert a + Fill(b, rules, tok) + Open(r) + b + Close(r) + c == bound;
    SweepBlock(a', n, b, c, tok);
    BlockLacks(a', r, b, c, '{');
    GetAfterSweep(bound, tok, url, urls);
  }
}
