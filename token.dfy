/** The token guard (templatte.php:705-716 and 506): a process-wide random
    token is written before every `}` and before the `>` of every if/repeat
    tag when a template is loaded, and taken away from before every `}` when
    it is rendered. */
module Token {
  import opened Text

  const Prefix: string := "-sec-token-"

  /** The shape of a generated token: `-sec-token-` and ten letters a-z. */
  predicate IsToken(t: string)
  {
    |t| == 21 && t[..11] == Prefix && forall i :: 11 <= i < 21 ==> 'a' <= t[i] <= 'z'
  }

  /** A token holds no character of the template syntax. */
  lemma {:induction false} TokenChars(t: string)
    requires IsToken(t)
    ensures |t| > 0 && t[0] == '-'
    ensures Lacks(t, '}') && Lacks(t, '{') && Lacks(t, '<') && Lacks(t, '>') && Lacks(t, '\n') && Lacks(t, ':')
  {
    forall i | 0 <= i < 11
      ensures t[i] == Prefix[i]
    {
      assert t[..11][i] == t[i];
    }
  }

  /** Ten results of rand(97, 122). */
  predicate ValidDraws(draws: seq<int>)
  {
    |draws| == 10 && forall i :: 0 <= i < 10 ==> 97 <= draws[i] <= 122
  }

  /** The ten letters chr(draw) of the token. */
  function Letters(draws: seq<int>): (r: string)
    requires ValidDraws(draws)
    ensures |r| == 10
    ensures forall i :: 0 <= i < 10 ==> 'a' <= r[i] <= 'z'
  {
    seq(10, i requires 0 <= i < 10 => draws[i] as char)
  }

  /** The state the source keeps in static members: the security token and
      the URL and language resolvers (templatte.php:64-104). Every engine
      instance of one process shares one Context. */
  class Context {
    var token: string
    const url: string -> string
    const lang: string -> string

    ghost predicate Valid()
      reads this
    {
      token == "" || IsToken(token)
    }

    /** A fresh process: no token yet, and the given resolvers. */
    constructor(url: string -> string, lang: string -> string)
      ensures Valid() && token == "" && this.url == url && this.lang == lang
    {
      token := "";
      this.url := url;
      this.lang := lang;
    }

    /** The first part of apply_security_token (templatte.php:706-712): a
        token is generated only while there is none, from ten draws of
        rand(97, 122). */
    method EnsureToken(draws: seq<int>)
      requires Valid() && ValidDraws(draws)
      modifies this`token
      ensures IsToken(token)
      ensures old(token) != "" ==> token == old(token)
      ensures old(token) == "" ==> token == Prefix + Letters(draws)
    {
      if token == "" {
        var str := "";
        for i := 0 to 10
          invariant str == Letters(draws)[..i]
        {
          str := str + [draws[i] as char];
        }
        token := Prefix + str;
      }
    }
  }

  /** preg_replace('/}/U', token . '}', s): the token before every `}`. */
  function WrapBraces(s: string, t: string): string
  {
    ReplaceAll(s, "}", t + "}")
  }

  /** str_replace(token . '}', '}', s) at templatte.php:506. */
  function Unwrap(s: string, t: string): string
  {
    ReplaceAll(s, t + "}", "}")
  }

  /** Every `}` of `w` comes right after the token. */
  predicate BracesGuarded(w: string, t: string)
  {
    forall i :: 0 <= i < |w| && w[i] == '}' ==> |t| <= i && w[i - |t|..i] == t
  }

  /** After the brace wrap every `}` is immediately preceded by the token. */
  lemma {:induction false} WrapBracesGuarded(s: string, t: string)
    requires Lacks(t, '}')
    ensures BracesGuarded(WrapBraces(s, t), t)
    decreases |s|
  {
    if s != [] {
      var w' := WrapBraces(s[1..], t);
      WrapBracesGuarded(s[1..], t);
      WrapBracesHead(s, t);
      if s[0] == '}' {
        GuardedBrace(t, w');
      } else {
        GuardedChar(s[0], t, w');
      }
    }
  }

  /** The brace wrap works character by character. */
  lemma {:induction false} WrapBracesHead(s: string, t: string)
    requires s != []
    ensures s[0] == '}' ==> WrapBraces(s, t) == t + "}" + WrapBraces(s[1..], t)
    ensures s[0] != '}' ==> WrapBraces(s, t) == [s[0]] + WrapBraces(s[1..], t)
  {
    assert s[0] == '}' <==> s[..1] == "}";
  }

  /** A wrapped brace in front keeps every brace guarded. */
  lemma {:induction false} GuardedBrace(t: string, w': string)
    requires BracesGuarded(w', t) && Lacks(t, '}')
    ensures BracesGuarded(t + "}" + w', t)
  {
    var w := t + "}" + w';
    forall i | 0 <= i < |w| && w[i] == '}'
      ensures |t| <= i && w[i - |t|..i] == t
    {
      if i == |t| {
        assert w[..|t|] == t;
      } else if |t| < i {
        var i' := i - |t| - 1;
        assert w'[i'] == w[i];
        assert w[i - |t|..i] == w'[i' - |t|..i'];
      }
    }
  }

  /** Any other character in front keeps every brace guarded. */
  lemma {:induction false} GuardedChar(ch: char, t: string, w': string)
    requires BracesGuarded(w', t) && ch != '}'
    ensures BracesGuarded([ch] + w', t)
  {
    var w := [ch] + w';
    forall i | 0 <= i < |w| && w[i] == '}'
      ensures |t| <= i && w[i - |t|..i] == t
    {
      assert w'[i - 1] == w[i];
      assert w[i - |t|..i] == w'[i - 1 - |t|..i - 1];
    }
  }

  /** Taking the token away gives back the text before the brace wrap,
      whatever the text: the wrap is lossless. */
  lemma {:induction false} UnwrapWrap(s: string, t: string)
    requires |t| > 0 && Lacks(t, '}')
    ensures Unwrap(WrapBraces(s, t), t) == s
    decreases |s|
  {
    if s != [] {
      var w := WrapBraces(s, t);
      var w' := WrapBraces(s[1..], t);
      UnwrapWrap(s[1..], t);
      var pat := t + "}";
      if s[0] == '}' {
        assert s[..1] == "}";
        assert w == pat + w';
        assert w[..|pat|] == pat && w[|pat|..] == w';
        assert Unwrap(w, t) == "}" + Unwrap(w', t);
        assert s == "}" + s[1..];
      } else {
        assert s[..1] != "}";
        assert w == [s[0]] + w';
        if |w| >= |pat| {
          WrapBracesGuarded(s[1..], t);
          assert w'[|t| - 1] != '}';
          assert w[..|pat|][|t|] == w'[|t| - 1];
          assert w[1..] == w';
          assert Unwrap(w, t) == [s[0]] + Unwrap(w', t);
        } else {
          assert Unwrap(w', t) == w';
        }
        assert s == [s[0]] + s[1..];
      }
    }
  }

  // ---------------------------------------------------------------------
  // The tag wrap: preg_replace('/(<\/?)((?:if!?|repeat):.+)>/Um', ...).

  /** Length of the keyword (`if!:`, `if:` or `repeat:`) that `s` starts
      with, or 0. */
  function KeywordLength(s: string): nat
  {
    if |s| >= 4 && s[..4] == "if!:" then 4
    else if |s| >= 3 && s[..3] == "if:" then 3
    else if |s| >= 7 && s[..7] == "repeat:" then 7
    else 0
  }

  /** Where the keyword ends in a text that starts with `<` or `</`. */
  function KeywordEnd(s: string): nat
    requires |s| > 0
  {
    var j0 := if |s| > 1 && s[1] == '/' then 2 else 1;
    j0 + KeywordLength(s[j0..])
  }

  /** `s` starts with `<` or `</` and a keyword. */
  predicate HasKeyword(s: string)
  {
    |s| > 0 && s[0] == '<' && KeywordEnd(s) > (if |s| > 1 && s[1] == '/' then 2 else 1)
  }

  /** Where the tag pattern ends when it matches at the start of `s`: `<` or
      `</`, a keyword, then the shortest run of one or more characters other
      than a line feed that is followed by `>` (the /U flag makes `.+`
      ungreedy). The result is the index of that `>`. */
  function TagEnd(s: string): (r: Option<nat>)
    ensures r.Some? ==> 0 < r.value < |s| && s[r.value] == '>'
    ensures r.Some? ==> HasKeyword(s) && KeywordEnd(s) < r.value
  {
    if |s| == 0 || s[0] != '<' then None
    else
      var j0 := if |s| > 1 && s[1] == '/' then 2 else 1;
      var k := KeywordLength(s[j0..]);
      var j := j0 + k;
      if k == 0 || j >= |s| then None
      else
        match IndexOf(s, ">", j + 1)
        case None => None
        case Some(p) => if Lacks(s[j..p], '\n') then Some(p) else None
  }

  /** The tag wrap of apply_security_token (templatte.php:715): the token
      before the `>` of every opening and closing if, if! and repeat tag,
      matched from left to right. */
  function WrapTags(s: string, t: string): string
    decreases |s|
  {
    if s == [] then []
    else
      match TagEnd(s)
      case Some(p) => s[..p] + t + ">" + WrapTags(s[p + 1..], t)
      case None => [s[0]] + WrapTags(s[1..], t)
  }

  /** Text without `<` holds no tag, and passes the tag wrap unchanged. */
  lemma {:induction false} WrapTagsPlain(a: string, s: string, t: string)
    requires Lacks(a, '<')
    ensures WrapTags(a + s, t) == a + WrapTags(s, t)
    decreases |a|
  {
    if a != [] {
      assert (a + s)[1..] == a[1..] + s;
      assert TagEnd(a + s).None?;
      WrapTagsPlain(a[1..], s, t);
      assert a == [a[0]] + a[1..];
    } else {
      assert a + s == s;
    }
  }

  /** The tag pattern matches at the start exactly up to the first `>`
      behind at least one character after the keyword, and only when no
      line feed comes before that `>`. */
  lemma {:induction false} TagEndMatch(s: string)
    requires |s| > 0
    ensures TagEnd(s).Some? ==>
      (forall i :: KeywordEnd(s) < i < TagEnd(s).value ==> s[i] != '>')
      && Lacks(s[KeywordEnd(s)..TagEnd(s).value], '\n')
    ensures TagEnd(s).None? && HasKeyword(s) ==>
      (forall p :: KeywordEnd(s) < p < |s| && s[p] == '>' ==> !Lacks(s[KeywordEnd(s)..p], '\n'))
  {
    var j := KeywordEnd(s);
    if HasKeyword(s) && j < |s| {
      match IndexOf(s, ">", j + 1)
      case None =>
        forall p | j < p < |s|
          ensures s[p] != '>'
        {
          CharOccurs(s, '>', p);
        }
      case Some(q) =>
        forall i | j < i < q
          ensures s[i] != '>'
        {
          CharOccurs(s, '>', i);
        }
        if !Lacks(s[j..q], '\n') {
          var k :| 0 <= k < q - j && s[j..q][k] == '\n';
          forall p | j < p < |s| && s[p] == '>'
            ensures !Lacks(s[j..p], '\n')
          {
            assert p >= q;
            assert s[j..p][k] == '\n';
          }
        }
    }
  }

  /** The keywords the tag pattern accepts, each followed by more text. */
  lemma {:induction false} KeywordLengthOf(kw: string, u: string)
    requires kw == "if:" || kw == "if!:" || kw == "repeat:"
    requires |u| > 0
    ensures KeywordLength(kw + u) == |kw|
  {
    var x := kw + u;
    if kw == "if:" {
      assert x[..3] == "if:";
      assert x[..4][2] == ':';
    } else if kw == "if!:" {
      assert x[..4] == "if!:";
    } else {
      assert x[..7] == "repeat:";
      assert x[..3][0] == 'r';
      assert x[..4][0] == 'r';
    }
  }

  /** Text that starts with neither `i` nor `r` starts with no keyword. */
  lemma {:induction false} NoKeyword(u: string)
    requires |u| > 0 && u[0] != 'i' && u[0] != 'r'
    ensures KeywordLength(u) == 0
  {
    if |u| >= 4 { assert u[..4][0] == u[0]; }
    if |u| >= 3 { assert u[..3][0] == u[0]; }
    if |u| >= 7 { assert u[..7][0] == u[0]; }
  }

  /** Behind `<` or `</` and a keyword, the keyword ends where it should. */
  lemma {:induction false} KeywordEndOf(x: string, lt: string, kw: string, u: string)
    requires lt == "<" || lt == "</"
    requires kw == "if:" || kw == "if!:" || kw == "repeat:"
    requires |u| > 0 && x == lt + (kw + u)
    ensures HasKeyword(x) && KeywordEnd(x) == |lt| + |kw|
  {
    assert x[0] == '<';
    assert |x| > 1 && (x[1] == '/' <==> lt == "</");
    assert x[|lt|..] == kw + u;
    KeywordLengthOf(kw, u);
  }

  /** The first `>` from offset 1 of a name without `>` is the one behind it. */
  lemma {:induction false} CloseAfterName(n: string, s: string)
    requires |n| > 0 && Lacks(n, '>')
    ensures IndexOf(n + (">" + s), ">", 1) == Some(|n|)
  {
    var u := n + (">" + s);
    assert u[|n|..|n| + 1] == ">";
    forall i | 1 <= i < |n|
      ensures !Occurs(u, ">", i)
    {
      assert u[i..i + 1][0] == n[i];
    }
    IndexOfIs(u, ">", 1, |n|);
  }

  /** Regrouping the pieces of a tag. */
  lemma {:induction false} JoinFront(lt: string, kw: string, n: string, r: string)
    ensures lt + kw + n + r == lt + (kw + (n + r)) == (lt + kw) + (n + r)
  {
  }

  /** Behind a front that ends with a keyword, the tag pattern ends at the
      `>` behind a name without `>` and line feeds. */
  lemma {:induction false} TagEndBehind(pre: string, n: string, s: string, x: string)
    requires x == pre + (n + (">" + s)) && HasKeyword(x) && KeywordEnd(x) == |pre|
    requires |n| > 0 && Lacks(n, '>') && Lacks(n, '\n')
    ensures TagEnd(x) == Some(|pre| + |n|)
  {
    var u := n + (">" + s);
    var j := |pre|;
    CloseAfterName(n, s);
    IndexOfFromAt(pre, u, ">", 1, j + 1, |n|, j + |n|);
    assert x[j..j + |n|] == n by {
      assert x[j..] == u;
      assert u[..|n|] == n;
    }
    TagEndFound(x, j, j + |n|);
  }

  /** The tag pattern matches when a keyword is followed by a `>` with no
      line feed before it. */
  lemma {:induction false} TagEndFound(x: string, j: nat, p: nat)
    requires HasKeyword(x) && KeywordEnd(x) == j && j < |x|
    requires IndexOf(x, ">", j + 1) == Some(p) && Lacks(x[j..p], '\n')
    ensures TagEnd(x) == Some(p)
  {
  }

  /** The tag wrap at a text starting with a tag. */
  lemma {:induction false} WrapTagsAtTag(x: string, p: nat, t: string)
    requires TagEnd(x) == Some(p)
    ensures WrapTags(x, t) == x[..p] + t + ">" + WrapTags(x[p + 1..], t)
  {
  }

  /** The tag wrap behind tag-free text, at a tag `H>` that the tag
      pattern matches. */
  lemma {:induction false} WrapBehindTag(a: string, h: string, s: string, t: string)
    requires Lacks(a, '<')
    requires TagEnd(h + (">" + s)) == Some(|h|)
    ensures WrapTags(a + (h + ">" + s), t) == a + (h + t + ">") + WrapTags(s, t)
  {
    var x := h + (">" + s);
    assert h + ">" + s == x;
    WrapTagsPlain(a, x, t);
    var p := |h|;
    assert x[..p] == h;
    assert x[p + 1..] == s;
    WrapTagsAtTag(x, p, t);
  }

  /** The tag wrap at one tag `<K N>` or `</K N>` for a keyword K: the token
      goes before the `>`, text before the tag is kept, and the wrap goes on
      behind the tag. */
  lemma {:induction false} WrapTagAt(a: string, lt: string, kw: string, n: string, s: string, t: string)
    requires Lacks(a, '<')
    requires lt == "<" || lt == "</"
    requires kw == "if:" || kw == "if!:" || kw == "repeat:"
    requires |n| > 0 && Lacks(n, '>') && Lacks(n, '\n')
    ensures WrapTags(a + (lt + kw + n + ">" + s), t) == a + (lt + kw + n + t + ">") + WrapTags(s, t)
  {
    var h := lt + kw + n;
    var x := h + (">" + s);
    JoinFront(lt, kw, n, ">" + s);
    KeywordEndOf(x, lt, kw, n + (">" + s));
    TagEndBehind(lt + kw, n, s, x);
    WrapBehindTag(a, h, s, t);
    var wrapped := WrapTags(a + (h + ">" + s), t);
    assert wrapped == a + (h + t + ">") + WrapTags(s, t);
  }

  /** Any other tag, such as `<div>` or `</p>`, passes the tag wrap
      unchanged. */
  lemma {:induction false} WrapOtherTag(w: string, s: string, t: string)
    requires Lacks(w, '<') && |w| > 0 && w[0] != 'i' && w[0] != 'r'
    requires w[0] == '/' ==> |w| > 1 && w[1] != 'i' && w[1] != 'r'
    ensures WrapTags("<" + w + s, t) == "<" + w + WrapTags(s, t)
  {
    var x := "<" + w + s;
    var j0 := if x[1] == '/' then 2 else 1;
    assert x[j0] == w[j0 - 1];
    NoKeyword(x[j0..]);
    assert TagEnd(x).None?;
    assert x[1..] == w + s;
    WrapTagsPlain(w, s, t);
  }

  /** A tag `<K N>` or `</K N>` whose name has no `}`. */
  lemma {:induction false} TagLacksBrace(lt: string, kw: string, n: string)
    requires lt == "<" || lt == "</"
    requires kw == "if:" || kw == "if!:" || kw == "repeat:"
    requires Lacks(n, '}')
    ensures Lacks(lt + kw + n + ">", '}')
  {
    LacksJoin(lt, kw, n, '}');
    LacksJoin(lt + kw + n, ">", [], '}');
    assert lt + kw + n + ">" + [] == lt + kw + n + ">";
  }

  /** A block of keyword K and name N in text without `}` has no brace for
      the guard to wrap. */
  lemma {:induction false} BlockLacksBrace(a: string, kw: string, n: string, b: string, c: string, t: string, s: string)
    requires kw == "if:" || kw == "if!:" || kw == "repeat:"
    requires Lacks(a, '}') && Lacks(b, '}') && Lacks(c, '}') && Lacks(n, '}')
    requires s == a + ("<" + kw + n + ">" + (b + ("</" + kw + n + ">" + c)))
    ensures WrapBraces(s, t) == s
  {
    var open := "<" + kw + n + ">";
    var close := "</" + kw + n + ">";
    var tail := b + (close + c);
    TagLacksBrace("<", kw, n);
    TagLacksBrace("</", kw, n);
    LacksJoin(b, close, c, '}');
    assert b + close + c == tail;
    LacksJoin(a, open, tail, '}');
    assert a + open + tail == s;
    NoOccurrenceLacking(s, "}");
    ReplaceAllAbsent(s, "}", t + "}");
  }

  /** The tag wrap of a block of keyword K and name N in text with no other
      tag. */
  lemma {:induction false} BlockTags(a: string, kw: string, n: string, b: string, c: string, t: string, s: string)
    requires kw == "if:" || kw == "if!:" || kw == "repeat:"
    requires Lacks(a, '<') && Lacks(b, '<') && Lacks(c, '<')
    requires |n| > 0 && Lacks(n, '>') && Lacks(n, '\n')
    requires s == a + ("<" + kw + n + ">" + (b + ("</" + kw + n + ">" + c)))
    ensures WrapTags(s, t) == a + ("<" + kw + n + t + ">") + (b + ("</" + kw + n + t + ">") + c)
  {
    var tail := b + ("</" + kw + n + ">" + c);
    WrapTagAt(a, "<", kw, n, tail, t);
    WrapTagAt(b, "</", kw, n, c, t);
    WrapTagsPlain(c, [], t);
    assert c + [] == c;
  }

  /** Loading a template with one block of keyword K and name N: with no
      `}` and no other tag in the text, the guard gives the block the token
      in both of its tags. */
  lemma {:induction false} GuardBlock(a: string, kw: string, n: string, b: string, c: string, t: string)
    requires kw == "if:" || kw == "if!:" || kw == "repeat:"
    requires Lacks(a, '<') && Lacks(b, '<') && Lacks(a, '}') && Lacks(b, '}') && Lacks(c, '}')
    requires |n| > 0 && Lacks(n, '>') && Lacks(n, '\n') && Lacks(n, '}')
    requires Lacks(c, '<')
    ensures Wrap(a + "<" + kw + n + ">" + b + "</" + kw + n + ">" + c, t)
      == a + ("<" + kw + n + t + ">") + b + ("</" + kw + n + t + ">") + c
  {
    var s := a + ("<" + kw + n + ">" + (b + ("</" + kw + n + ">" + c)));
    assert a + "<" + kw + n + ">" + b + "</" + kw + n + ">" + c == s;
    BlockLacksBrace(a, kw, n, b, c, t, s);
    BlockTags(a, kw, n, b, c, t, s);
    var x := "<" + kw + n + t + ">";
    var y := "</" + kw + n + t + ">";
    assert a + x + (b + y + c) == a + x + b + y + c;
  }

  /** apply_security_token's wrap as a whole: braces first, then tags. */
  function Wrap(s: string, t: string): string
  {
    WrapTags(WrapBraces(s, t), t)
  }

  /** For template text without tags, rendering's token strip undoes the
      wrap applied at load time. */
  lemma {:induction false} WrapPlainRoundTrip(s: string, t: string)
    requires IsToken(t) && Lacks(s, '<')
    ensures Lacks(Wrap(s, t), '<')
    ensures Unwrap(Wrap(s, t), t) == s
  {
    TokenChars(t);
    WrapBracesLacks(s, t, '<');
    WrapTagsPlain(WrapBraces(s, t), [], t);
    assert WrapBraces(s, t) + [] == WrapBraces(s, t);
    UnwrapWrap(s, t);
  }

  /** The brace wrap adds no character other than the token's and `}`. */
  lemma {:induction false} WrapBracesLacks(s: string, t: string, c: char)
    requires Lacks(s, c) && Lacks(t, c) && c != '}'
    ensures Lacks(WrapBraces(s, t), c)
    decreases |s|
  {
    if s != [] {
      WrapBracesLacks(s[1..], t, c);
      if s[0] == '}' {
        assert s[..1] == "}";
        assert WrapBraces(s, t) == t + "}" + WrapBraces(s[1..], t);
      } else {
        assert s[..1] != "}";
        assert WrapBraces(s, t) == [s[0]] + WrapBraces(s[1..], t);
      }
    }
  }
}
