/** The engine object, class Templatte (templatte.php:41-783): one template
    string that every operation rewrites in place, and the process-wide
    context that holds the security token and the URL and language
    resolvers. Each method is proved against the function that specifies
    it in the other modules. */
module Engine {
  import opened Text
  import opened Escape
  import opened Values
  import opened Binder
  import opened Conditional
  import opened Repeat
  import opened Scan
  import opened Token
  import opened Finalize
  import opened Dispatch

  class Templatte {
    var template: string
    const ctx: Context
    /** The 'urls' option: whether get() resolves URL: placeholders. */
    const urls: bool

    /** __construct for a template given as a string (option type
        'string'): the template is the source, translated when the 'langs'
        option is set, then guarded by the token (templatte.php:130-181). */
    constructor(source: string, ctx: Context, draws: seq<int>, langs: bool, urls: bool)
      requires ctx.Valid() && ValidDraws(draws)
      modifies ctx
      ensures this.ctx == ctx && this.urls == urls
      ensures ctx.Valid() && IsToken(ctx.token)
      ensures old(ctx.token) != "" ==> ctx.token == old(ctx.token)
      ensures old(ctx.token) == "" ==> ctx.token == Prefix + Letters(draws)
      ensures template == Wrap(if langs then LangsSpec(source, ctx.lang) else source, ctx.token)
    {
      this.ctx := ctx;
      this.urls := urls;
      template := source;
      new;
      if langs {
        ReplaceLangs();
      }
      ApplySecurityToken(draws);
    }

    /** apply_security_token (templatte.php:705-716): the token is made if
        there is none yet, then written before every `}` and before the `>`
        of every if, if! and repeat tag. */
    method ApplySecurityToken(draws: seq<int>)
      requires ctx.Valid() && ValidDraws(draws)
      modifies this`template, ctx`token
      ensures ctx.Valid() && IsToken(ctx.token)
      ensures old(ctx.token) != "" ==> ctx.token == old(ctx.token)
      ensures old(ctx.token) == "" ==> ctx.token == Prefix + Letters(draws)
      ensures template == Wrap(old(template), ctx.token)
    {
      ctx.EnsureToken(draws);
      template := WrapBraces(template, ctx.token);
      template := WrapTags(template, ctx.token);
    }

    /** _bind (templatte.php:276-301). */
    method BindOne(rule: string, v: Value)
      requires BindSafe(rule, v, ctx.token)
      modifies this`template
      ensures template == BindSpec(old(template), rule, v, ctx.token)
    {
      if IsIfRule(rule) {
        var _ := ReplaceIf(rule, Truthy(v), None);
      } else if IsRepeatRule(rule) {
        ReplaceRepeat(rule, v);
      } else {
        // The rule is a single name, so the source's for loop runs at most
        // once: for the value at index 0, when it is set.
        match SimpleValue(v)
        case None =>
        case Some(x) =>
          var (p, repl) := GetReplacement(rule, x);
          template := ReplaceAll(template, "{" + p + "}", repl);
      }
    }

    /** bind(rule, value) (templatte.php:193-203). */
    method Bind(rule: string, v: Value)
      requires BindSafe(rule + ctx.token, v, ctx.token)
      modifies this`template
      ensures template == BindSpec(old(template), rule + ctx.token, v, ctx.token)
    {
      BindOne(rule + ctx.token, v);
    }

    /** bind(array) (templatte.php:194-198): every entry bound in order. */
    method BindAll(rules: seq<(string, Value)>)
      requires AllSafe(rules, ctx.token)
      modifies this`template
      ensures template == BindAllSpec(old(template), rules, ctx.token)
    {
      for i := 0 to |rules|
        invariant AllSafe(rules[i..], ctx.token)
        invariant BindAllSpec(template, rules[i..], ctx.token) == BindAllSpec(old(template), rules, ctx.token)
      {
        assert rules[i..][0] == rules[i] && rules[i..][1..] == rules[i + 1..];
        BindOne(rules[i].0 + ctx.token, rules[i].1);
      }
    }

    /** repeat(name, rules) (templatte.php:214-218). */
    method Repeat(name: string, v: Value)
      requires BindSafe("repeat:" + name + ctx.token, v, ctx.token)
      modifies this`template
      ensures template == BindSpec(old(template), "repeat:" + name + ctx.token, v, ctx.token)
    {
      Bind("repeat:" + name, v);
    }

    /** replace_if (templatte.php:320-335): the rule with `show`, then its
        negative form with `!show`. The result is the returned text. */
    method ReplaceIf(rule: string, show: bool, frag: Option<string>) returns (str: string)
      requires IfRuleSafe(rule, show)
      modifies this`template
      ensures (str, template) == ReplaceIfSpec(old(template), rule, show, frag)
    {
      var notRule := NotRule(rule);
      str := ReplaceIfIn(rule, show, frag);
      var second := if frag.Some? && Truthy(Str(frag.value)) then Some(str) else None;
      str := ReplaceIfIn(notRule, !show, second);
    }

    /** _replace_if (templatte.php:348-375): while the first opening tag
        comes before the first closing tag, the pair is collapsed. Without
        a fragment the template is the text, and is written back. */
    method ReplaceIfIn(rule: string, show: bool, frag: Option<string>) returns (s: string)
      requires MayCollapse(rule, show)
      modifies this`template
      ensures s == CollapseIf(if frag.None? then old(template) else frag.value, rule, show)
      ensures template == if frag.None? then s else old(template)
    {
      var useTemplate := frag.None?;
      s := if useTemplate then template else frag.value;
      ghost var s0 := s;
      var startPos := IndexOf(s, Open(rule), 0);
      var endPos := IndexOf(s, Close(rule), 0);
      while startPos.Some? && endPos.Some? && startPos.value < endPos.value
        invariant template == old(template)
        invariant startPos == IndexOf(s, Open(rule), 0) && endPos == IndexOf(s, Close(rule), 0)
        invariant CollapseIf(s, rule, show) == CollapseIf(s0, rule, show)
        decreases |s|
      {
        var o, c := startPos.value, endPos.value;
        var tagLenStart, tagLenEnd := |Open(rule)|, |Close(rule)|;
        var content := if show then Substr(s, o + tagLenStart, c - (o + tagLenStart)) else "";
        var len := c + tagLenEnd - o;
        var next := Splice(s, content, o, len);
        CollapseTurn(s, rule, show, o, c, tagLenStart, tagLenEnd, content, len, next);
        s := next;
        startPos := IndexOf(s, Open(rule), 0);
        endPos := IndexOf(s, Close(rule), 0);
      }
      CollapseIfStop(s, rule, show);
      if useTemplate {
        template := s;
      }
    }

    /** replace_repeat (templatte.php:392-424): every block found at or
        after the cursor gets its text, filled by the nested rules, inserted
        in front of it; the cursor then moves behind the block. */
    method ReplaceRepeat(rule: string, v: Value)
      requires NestedSafe(Entries(v), ctx.token)
      modifies this`template
      ensures template == RepeatFrom(old(template), rule, Entries(v), ctx.token, 0)
    {
      var rules := Entries(v);
      var tok := ctx.token;
      var searchStart: nat := 0;
      while true
        invariant RepeatFrom(template, rule, rules, tok, searchStart) == RepeatFrom(old(template), rule, rules, tok, 0)
        decreases if searchStart <= |template| then |template| - searchStart else 0
      {
        var startPos := IndexOf(template, Open(rule), searchStart);
        var endPos := IndexOf(template, Close(rule), searchStart);
        if !(startPos.Some? && endPos.Some? && startPos.value < endPos.value) {
          RepeatStop(template, rule, rules, tok, searchStart, startPos, endPos);
          break;
        }
        var o, c := startPos.value, endPos.value;
        var tagLenStart, tagLenEnd := |Open(rule)|, |Close(rule)|;
        ghost var t0 := template;
        var str := Substr(template, o + tagLenStart, c - (o + tagLenStart));
        var copy := FillCopy(str, rules);
        ghost var t1 := template;
        template := Splice(template, copy, o, 0);
        var next := |copy| + c + tagLenEnd;
        InnerIs(t0, rule, o, c, tagLenStart, str);
        RepeatTurnOf(t0, rule, rules, tok, o, c, str, copy, t1);
        RepeatStepTo(t0, rule, rules, tok, searchStart, o, c, template, next);
        searchStart := next;
      }
    }

    /** The nested rules of one iteration applied to the block's text
        (templatte.php:405-416). */
    method FillCopy(str: string, rules: seq<(string, Value)>) returns (s: string)
      requires NestedSafe(rules, ctx.token)
      modifies this`template
      ensures (s, template) == ApplyNested(old(template), str, rules, ctx.token)
    {
      var tok := ctx.token;
      s := str;
      for i := 0 to |rules|
        invariant NestedSafe(rules[i..], tok)
        invariant ApplyNested(template, s, rules[i..], tok) == ApplyNested(old(template), str, rules, tok)
      {
        assert rules[i..][0] == rules[i] && rules[i..][1..] == rules[i + 1..];
        var (pattern, replacement) := rules[i];
        if IsIfRule(pattern) {
          s := ReplaceIf(pattern + tok, Truthy(replacement), Some(s));
        } else {
          var (p, x) := GetReplacement(pattern + tok, replacement);
          s := ReplaceAll(s, "{" + p + "}", x);
        }
      }
    }

    /** get() (templatte.php:456-509): the repeat blocks still in the text
        are cut out, every if rule left is applied as false, URL:
        placeholders are resolved when the 'urls' option is set, and the
        token is taken away from before `}`. */
    method Get() returns (r: string)
      requires GetSafe(template, ctx.token)
      modifies this`template
      ensures (r, template) == GetSpec(old(template), ctx.token, ctx.url, urls)
    {
      var tok := ctx.token;
      var retstr := template;
      var lastOffset: nat := 0;
      while true
        invariant template == old(template) && lastOffset <= |retstr|
        invariant SweepRepeats(retstr, tok, lastOffset) == SweepRepeats(old(template), tok, 0)
        decreases |retstr|, |retstr| - lastOffset
      {
        var sp := IndexOf(retstr, RepeatLead, lastOffset);
        if sp.None? {
          SweepDone(retstr, tok, lastOffset);
          break;
        }
        var startPos := sp.value;
        var cut := CutRepeat(retstr, startPos);
        var next := if cut.Some? then cut.value else retstr;
        var nextOffset := if cut.Some? then startPos else startPos + 8;
        SweepTurn(retstr, tok, lastOffset, startPos, cut, next, nextOffset);
        retstr, lastOffset := next, nextOffset;
      }
      ghost var swept, t0 := retstr, template;
      var names := IfNames(retstr, tok);
      assert names[0..] == names;
      for i := 0 to |names|
        invariant SweepSafe(names[i..])
        invariant IfSweep(retstr, template, names[i..]) == IfSweep(swept, t0, names)
      {
        ghost var t := template;
        var s' := ReplaceIf(names[i], false, Some(retstr));
        IfSweepTurn(retstr, t, names, i, s', template);
        retstr := s';
      }
      if urls {
        retstr := CreateUrls(retstr);
      }
      r := Unwrap(retstr, tok);
    }

    /** One turn of get()'s first loop at the `<repeat:` found at `st`
        (templatte.php:463-493): the text after the block is cut, or None
        when the tag is not closed by the token or its block has no end. */
    method CutRepeat(s: string, st: nat) returns (cut: Option<string>)
      requires st + 8 <= |s|
      ensures cut == CutAt(s, ctx.token, st)
    {
      var tok := ctx.token;
      var tokenPos := IndexOf(s, tok + ">", st + 8);
      if tokenPos.None? {
        return None;
      }
      var tp := tokenPos.value;
      var chars := (tp + |tok| + 1) - st;
      var tagName := Substr(s, st + 1, chars - 2);
      CutName(s, tok, st, tp, chars, tagName);
      var gt := IndexOf(tagName, ">", 0);
      if gt.Some? {
        CutNamedBy(s, st, tagName, gt, None);
        return None;
      }
      var endPos := IndexOf(s, Close(tagName), st + |tagName|);
      CutNamedBy(s, st, tagName, gt, endPos);
      if endPos.None? {
        return None;
      }
      cut := Some(Splice(s, "", st, endPos.value + |tagName| + 3 - st));
    }

    /** create_urls(text) (templatte.php:614-642): the URL: placeholders of
        the template, each resolved once and escaped, replaced in the text. */
    method CreateUrls(s: string) returns (r: string)
      ensures r == CreateUrlsSpec(s, template, ctx.token, ctx.url)
    {
      var tok := ctx.token;
      var names := UrlNames(template, tok);
      var matched: set<string> := {};
      r := s;
      for i := 0 to |names|
        invariant CreateUrlsFrom(r, names[i..], matched, tok, ctx.url) == CreateUrlsFrom(s, names, {}, tok, ctx.url)
      {
        assert names[i..][0] == names[i] && names[i..][1..] == names[i + 1..];
        var paramName := names[i];
        if paramName !in matched {
          var repl := ctx.url(paramName[4..]);
          repl := EscapeDefault(repl);
          r := ReplaceAll(r, "{" + paramName + tok + "}", repl);
          matched := matched + {paramName};
        }
      }
    }

    /** replace_langs (templatte.php:662-686): every `{L:...}` placeholder
        of the template, translated once and bound as a plain rule. */
    method ReplaceLangs()
      modifies this`template
      ensures template == LangsSpec(old(template), ctx.lang)
    {
      var names := LangNames(template);
      var matched: set<string> := {};
      assert names[0..] == names;
      for i := 0 to |names|
        invariant forall n :: n in names[i..] ==> |n| >= 2
        invariant LangsFrom(template, names[i..], matched, ctx.lang) == LangsSpec(old(template), ctx.lang)
      {
        var paramName := names[i];
        ghost var t, seen := template, matched;
        if paramName !in matched {
          var v := Str(ctx.lang(paramName[2..]));
          LangRule(paramName, v, ctx.token);
          BindOne(paramName, v);
          matched := matched + {paramName};
        }
        LangsTurn(t, names, i, seen, ctx.lang, ctx.token, template, matched);
      }
    }
  }
}
