/** The front ends of binding: _bind (templatte.php:276-301), which sends
    a rule to the conditional engine, to the repeat engine or to a plain
    str_replace; bind and repeat (templatte.php:193-218), which append the
    security token to the rule names; and replace_langs
    (templatte.php:662-686), which binds every `{L:...}` placeholder to its
    translation. */
module Dispatch {
  import opened Text
  import opened Escape
  import opened Values
  import opened Binder
  import opened Conditional
  import opened Repeat
  import opened Scan

  /** What _bind needs of a rule and its value: an if rule can be applied
      with the truth of its value, and the nested rules of a repeat rule
      with theirs. */
  predicate BindSafe(rule: string, v: Value, tok: string)
  {
    (IsIfRule(rule) ==> IfRuleSafe(rule, Truthy(v)))
    && (!IsIfRule(rule) && IsRepeatRule(rule) ==> NestedSafe(Entries(v), tok))
  }

  /** _bind(rule, value) on the template: an if rule is applied with the
      truth of the value, a repeat rule iterates once with the value's
      entries as nested rules, and any other rule is a plain placeholder. */
  function BindSpec(template: string, rule: string, v: Value, tok: string): string
    requires BindSafe(rule, v, tok)
  {
    if IsIfRule(rule) then ReplaceIfSpec(template, rule, Truthy(v), None).1
    else if IsRepeatRule(rule) then RepeatFrom(template, rule, Entries(v), tok, 0)
    else BindPlain(template, rule, v)
  }

  /** Every entry of bind(array) can be bound. */
  predicate AllSafe(rules: seq<(string, Value)>, tok: string)
  {
    forall i :: 0 <= i < |rules| ==> BindSafe(rules[i].0 + tok, rules[i].1, tok)
  }

  /** bind(array): _bind(key . T, value) for every entry, in order. */
  function BindAllSpec(template: string, rules: seq<(string, Value)>, tok: string): string
    requires AllSafe(rules, tok)
    decreases |rules|
  {
    if rules == [] then template
    else
      assert AllSafe(rules[1..], tok) by {
        forall i | 0 <= i < |rules[1..]|
          ensures BindSafe(rules[1..][i].0 + tok, rules[1..][i].1, tok)
        {
          assert rules[1..][i] == rules[i + 1];
        }
      }
      BindAllSpec(BindSpec(template, rules[0].0 + tok, rules[0].1, tok), rules[1..], tok)
  }

  /** Binding two arrays one after the other is binding their entries in
      one array. */
  lemma {:induction false} BindAllAppend(template: string, r1: seq<(string, Value)>, r2: seq<(string, Value)>, tok: string)
    requires AllSafe(r1 + r2, tok)
    ensures AllSafe(r1, tok) && AllSafe(r2, tok)
    ensures BindAllSpec(template, r1 + r2, tok) == BindAllSpec(BindAllSpec(template, r1, tok), r2, tok)
    decreases |r1|
  {
    forall i | 0 <= i < |r1|
      ensures BindSafe(r1[i].0 + tok, r1[i].1, tok)
    {
      assert r1[i] == (r1 + r2)[i];
    }
    forall i | 0 <= i < |r2|
      ensures BindSafe(r2[i].0 + tok, r2[i].1, tok)
    {
      assert r2[i] == (r1 + r2)[|r1| + i];
    }
    if r1 != [] {
      var t1 := BindSpec(template, r1[0].0 + tok, r1[0].1, tok);
      assert (r1 + r2)[0] == r1[0];
      assert (r1 + r2)[1..] == r1[1..] + r2;
      BindAllAppend(t1, r1[1..], r2, tok);
    } else {
      assert r1 + r2 == r2;
    }
  }

  /** An if rule bound on a template holding one block of it, in text
      without other tags: the block's text stays when the value is truthy
      and goes when it is not, and the text around it is kept. */
  lemma {:induction false} BindIf(a: string, b: string, c: string, n: string, v: Value, tok: string)
    requires |tok| > 0 && tok[0] != '\n' && Lacks(tok, '<')
    requires Lacks(a, '<') && Lacks(b, '<') && Lacks(c, '<') && Lacks(n, '<') && Lacks(n, '\n')
    ensures var r := "if:" + n + tok;
      BindSafe(r, v, tok)
      && BindSpec(a + Open(r) + b + Close(r) + c, r, v, tok) == a + (if Truthy(v) then b else "") + c
  {
    var n' := n + tok;
    var r := "if:" + n';
    assert "if:" + n + tok == r;
    LacksJoin(n, tok, "", '<');
    assert n + tok + "" == n';
    IfBlock(a, b, c, n', Truthy(v));
    assert r[..3] == "if:";
    assert r[3] != '\n' by {
      if |n| > 0 {
        assert r[3] == n[0];
      } else {
        assert r[3] == tok[0];
      }
    }
  }

  /** A repeat rule bound with plain nested rules on a template holding
      one block of it: one filled copy of the block's text is inserted in
      front of the block, which stays for the next iteration. */
  lemma {:induction false} BindRepeat(a: string, b: string, c: string, n: string, rules: seq<(string, Value)>, tok: string)
    requires |tok| > 0 && tok[0] != '\n' && Lacks(tok, '<')
    requires Lacks(a, '<') && Lacks(b, '<') && Lacks(c, '<') && Lacks(n, '<') && Lacks(n, '\n')
    requires NoIfRules(rules)
    ensures var r := "repeat:" + n + tok;
      BindSafe(r, Arr(rules), tok)
      && BindSpec(a + Open(r) + b + Close(r) + c, r, Arr(rules), tok)
        == a + Fill(b, rules, tok) + Open(r) + b + Close(r) + c
  {
    var r := "repeat:" + n + tok;
    RepeatRuleName(n, tok, r);
    RepeatOnce(a, b, c, r, rules, tok);
    assert Entries(Arr(rules)) == rules;
  }

  /** `repeat:` + N + T names a repeat rule and is no if rule. */
  lemma {:induction false} RepeatRuleName(n: string, tok: string, r: string)
    requires |tok| > 0 && tok[0] != '\n' && Lacks(tok, '<')
    requires Lacks(n, '<') && Lacks(n, '\n')
    requires r == "repeat:" + n + tok
    ensures IsRepeatRule(r) && !IsIfRule(r)
    ensures Lacks(r, '<') && |r| > 0 && r[0] != '/'
  {
    LacksJoin("repeat:", n, tok, '<');
    assert r[0] == 'r';
    assert r[..7] == "repeat:";
    assert r[7] != '\n' by {
      if |n| > 0 {
        assert r[7] == n[0];
      } else {
        assert r[7] == tok[0];
      }
    }
  }

  /** A plain rule whose placeholder is absent leaves the template as it
      is, whatever the value. */
  lemma {:induction false} BindAbsent(template: string, rule: string, v: Value, tok: string)
    requires !IsIfRule(rule) && !IsRepeatRule(rule)
    requires IndexOf(template, "{" + RuleName(rule) + "}", 0).None?
    ensures BindSafe(rule, v, tok) && BindSpec(template, rule, v, tok) == template
  {
    match SimpleValue(v)
    case None =>
    case Some(x) =>
      var (p, repl) := GetReplacement(rule, x);
      ReplacementByHint(rule, x);
      ReplaceAllAbsent(template, "{" + p + "}", repl);
  }

  /** The placeholders replace_langs looks up: the captures of `{(L:.*)}`. */
  function LangNames(template: string): (r: seq<string>)
    ensures forall n :: n in r ==> |n| >= 2 && n[..2] == "L:"
  {
    Captures(template, "{", "L:", "", "}")
  }

  /** replace_langs' loop: every name not met before is translated once
      and bound as a plain rule with the translation as its value. */
  function LangsFrom(template: string, names: seq<string>, seen: set<string>, lang: string -> string): string
    requires forall n :: n in names ==> |n| >= 2
    decreases |names|
  {
    if names == [] then template
    else if names[0] in seen then LangsFrom(template, names[1..], seen, lang)
    else
      var t := BindPlain(template, names[0], Str(lang(names[0][2..])));
      LangsFrom(t, names[1..], seen + {names[0]}, lang)
  }

  /** replace_langs(): the placeholders of the template, each translated. */
  function LangsSpec(template: string, lang: string -> string): string
  {
    LangsFrom(template, LangNames(template), {}, lang)
  }

  /** A language placeholder is neither an if nor a repeat rule: _bind
      treats it as a plain name. */
  lemma {:induction false} LangRule(n: string, v: Value, tok: string)
    requires |n| >= 2 && n[..2] == "L:"
    ensures BindSafe(n, v, tok)
    ensures !IsIfRule(n) && !IsRepeatRule(n)
  {
    assert n[0] == 'L';
    if |n| >= 4 {
      assert n[..3][0] == 'L';
    }
    if |n| >= 8 {
      assert n[..7][0] == 'L';
    }
  }

  /** One turn of replace_langs' loop: a name met before is skipped, a new
      one is bound and remembered. */
  lemma {:induction false} LangsTurn(template: string, names: seq<string>, i: nat, seen: set<string>, lang: string -> string, tok: string, t': string, seen': set<string>)
    requires forall n :: n in names ==> |n| >= 2 && n[..2] == "L:"
    requires i < |names|
    requires names[i] in seen ==> t' == template && seen' == seen
    requires names[i] !in seen ==> BindSafe(names[i], Str(lang(names[i][2..])), tok)
    requires names[i] !in seen ==> t' == BindSpec(template, names[i], Str(lang(names[i][2..])), tok) && seen' == seen + {names[i]}
    ensures forall n :: n in names[i + 1..] ==> |n| >= 2
    ensures forall n :: n in names[i..] ==> |n| >= 2
    ensures LangsFrom(t', names[i + 1..], seen', lang) == LangsFrom(template, names[i..], seen, lang)
  {
    assert names[i] in names;
    assert forall n :: n in names[i..] ==> n in names;
    assert names[i..][0] == names[i] && names[i..][1..] == names[i + 1..];
    LangRule(names[i], Str(lang(names[i][2..])), tok);
  }

  /** A template without `{` holds no language placeholder and is kept. */
  lemma {:induction false} LangsPlain(template: string, lang: string -> string)
    requires Lacks(template, '{')
    ensures LangsSpec(template, lang) == template
  {
    NoCaptures(template, "{", "L:", "", "}");
  }

  /** A template with one language placeholder `{L:K}` gets the escaped
      translation of K in its place; the text around it is kept. */
  lemma {:induction false} LangsSingle(a: string, k: string, c: string, lang: string -> string)
    requires Lacks(a, '{') && Lacks(k, '}') && Lacks(k, '\n') && Lacks(c, '{')
    ensures LangsSpec(a + "{L:" + k + "}" + c, lang) == a + EscapeDefault(lang(k)) + c
  {
    var name := "L:" + k;
    var pat := "{" + name + "}";
    var t := a + (pat + c);
    assert a + "{L:" + k + "}" + c == t;
    LangsAt(a, k, c, name, pat, t, lang);
  }

  lemma {:induction false} LangsAt(a: string, k: string, c: string, name: string, pat: string, t: string, lang: string -> string)
    requires Lacks(a, '{') && Lacks(k, '}') && Lacks(k, '\n') && Lacks(c, '{')
    requires name == "L:" + k && pat == "{" + name + "}" && t == a + (pat + c)
    ensures LangsSpec(t, lang) == a + EscapeDefault(lang(k)) + c
  {
    LangCaptures(a, k, c);
    LangsOneName(t, name, lang);
    assert name[2..] == k;
    BindPlainDefault(t, name, lang(k));
    PlaceholderOnce(a, pat, c, EscapeDefault(lang(k)));
  }

  /** replace_langs on a template with one placeholder name binds it once. */
  lemma {:induction false} LangsOneName(t: string, name: string, lang: string -> string)
    requires LangNames(t) == [name]
    ensures |name| >= 2 && LangsSpec(t, lang) == BindPlain(t, name, Str(lang(name[2..])))
  {
    var names := LangNames(t);
    assert name in names;
    var t1 := BindPlain(t, name, Str(lang(name[2..])));
    assert names[1..] == [];
    assert LangsFrom(t1, [], {name}, lang) == t1;
    assert LangsFrom(t, names, {}, lang) == t1;
  }

  /** A plain rule without a hint, bound to a string, is replaced by the
      string's default escaping. */
  lemma {:induction false} BindPlainDefault(t: string, name: string, x: string)
    requires |name| > 0 && name[0] != '!' && name[0] != '$'
    ensures BindPlain(t, name, Str(x)) == ReplaceAll(t, "{" + name + "}", EscapeDefault(x))
  {
  }

  /** The captures of a template holding one language placeholder. */
  lemma {:induction false} LangCaptures(a: string, k: string, c: string)
    requires Lacks(a, '{') && Lacks(k, '}') && Lacks(k, '\n') && Lacks(c, '{')
    ensures LangNames(a + ("{" + ("L:" + k) + "}" + c)) == ["L:" + k]
  {
    var lead, head, gtail, after := "{", "L:", "", "}";
    var tail := gtail + after;
    assert tail == "}";
    forall j | 0 <= j < |k|
      ensures !Occurs(k + tail, tail, j)
    {
      assert (k + tail)[j] == k[j];
    }
    CapturesFirst(k, c, lead, head, gtail, after);
    NoCaptures(c, lead, head, gtail, after);
    var u := lead + head + (k + tail + c);
    CapturesBehind(a, u, lead, head, gtail, after);
    LangPieces(a, k, c, u);
  }

  lemma {:induction false} LangPieces(a: string, k: string, c: string, u: string)
    requires u == "{" + "L:" + (k + ("" + "}") + c)
    ensures a + ("{" + ("L:" + k) + "}" + c) == a + u
    ensures "L:" + k + "" == "L:" + k
  {
  }
}
