/** The values a caller binds to rules, with the PHP conversions the engine
    relies on, and get_replacement's choice of escaping by hint character. */
module Values {
  import opened Text
  import opened Escape

  /** A PHP value as bind(), repeat() and their nested rules receive it:
      null, a string, a boolean, or an array (an ordered list of keyed
      entries; integer keys are written as their decimal text). */
  datatype Value = Null | Str(s: string) | Bool(b: bool) | Arr(entries: seq<(string, Value)>)

  /** PHP's (bool) cast. */
  predicate Truthy(v: Value)
  {
    match v
    case Null => false
    case Str(s) => s != "" && s != "0"
    case Bool(b) => b
    case Arr(e) => e != []
  }

  /** PHP's conversion of a value to a string, as str_replace and
      preg_replace perform it. */
  function ToText(v: Value): string
  {
    match v
    case Null => ""
    case Str(s) => s
    case Bool(b) => if b then "1" else ""
    case Arr(_) => "Array"
  }

  /** `$a[key]` on an array: the entry under that key. */
  function Lookup(entries: seq<(string, Value)>, key: string): (r: Option<Value>)
    ensures r.Some? <==> exists i :: 0 <= i < |entries| && entries[i].0 == key
    ensures r.Some? ==> (key, r.value) in entries
  {
    if entries == [] then None
    else if entries[0].0 == key then Some(entries[0].1)
    else Lookup(entries[1..], key)
  }

  /** The entries a `foreach` visits: those of an array, none otherwise. */
  function Entries(v: Value): seq<(string, Value)>
  {
    if v.Arr? then v.entries else []
  }

  /** Decimal text of a natural number, as PHP writes an integer key. */
  function NatText(n: nat): (r: string)
    ensures |r| > 0
  {
    if n < 10 then [('0' as int + n) as char] else NatText(n / 10) + [('0' as int + n % 10) as char]
  }

  /** An array whose keys are 0, 1, 2, ... in order: json_encode writes it
      as a JSON array, every other array as a JSON object. */
  predicate IsList(entries: seq<(string, Value)>)
  {
    forall i :: 0 <= i < |entries| ==> entries[i].0 == NatText(i)
  }

  /** json_encode with PHP's default flags. */
  function JsonEncode(v: Value): string
    decreases v, 1
  {
    match v
    case Null => "null"
    case Str(s) => JsonString(s)
    case Bool(b) => if b then "true" else "false"
    case Arr(e) =>
      if IsList(e) then "[" + JsonItems(v, 0, false) + "]"
      else "{" + JsonItems(v, 0, true) + "}"
  }

  /** The comma-separated members of an array from index `i` on, each
      preceded by its key as a JSON string when written as an object. */
  function JsonItems(v: Value, i: nat, keyed: bool): string
    requires v.Arr?
    decreases v, 0, |v.entries| - i
  {
    if i >= |v.entries| then ""
    else
      var entry := v.entries[i];
      assert entry in v.entries;
      var item := (if keyed then JsonString(entry.0) + ":" else "") + JsonEncode(entry.1);
      (if i > 0 then "," else "") + item + JsonItems(v, i + 1, keyed)
  }
}

/** Rule names and get_replacement (templatte.php:236-261). */
module Binder {
  import opened Text
  import opened Escape
  import opened Values

  /** preg_match('/^if:.+/', rule): `if:` followed by at least one character
      other than a line feed. */
  predicate IsIfRule(r: string)
  {
    |r| >= 4 && r[..3] == "if:" && r[3] != '\n'
  }

  /** preg_match('/^repeat:.+/', rule). */
  predicate IsRepeatRule(r: string)
  {
    |r| >= 8 && r[..7] == "repeat:" && r[7] != '\n'
  }

  /** The placeholder name get_replacement leaves: the rule without its
      hint character `!` or `$`. */
  function RuleName(rule: string): string
  {
    if |rule| > 0 && (rule[0] == '!' || rule[0] == '$') then rule[1..] else rule
  }

  /** get_replacement: null becomes the empty string; a leading `!` is cut
      off the rule and keeps the value raw (an array prints as "Array"), a
      leading `$` is cut off and JSON-encodes the value, anything else keeps
      the rule and applies the default escaping. An array under the default
      hint comes out of preg_replace as an array, which htmlspecialchars
      turns into null, so its placeholders are replaced by nothing. */
  function GetReplacement(rule: string, v: Value): (string, string)
  {
    var w := if v.Null? then Str("") else v;
    if |rule| > 0 && rule[0] == '!' then (rule[1..], ToText(w))
    else if |rule| > 0 && rule[0] == '$' then (rule[1..], JsonEncode(w))
    else (rule, if w.Arr? then "" else EscapeDefault(ToText(w)))
  }

  /** What each hint promises about the replacement: raw text unchanged;
      a JSON string literal that decodes to the text; or text free of raw
      markup and of control characters that decodes to the input less its
      control characters, and nothing for an array. A null value counts as
      the empty string. In every case the placeholder name is RuleName. */
  lemma {:induction false} ReplacementByHint(rule: string, v: Value)
    ensures GetReplacement(rule, v).0 == RuleName(rule)
    ensures var (r, x) := GetReplacement(rule, v);
      if |rule| > 0 && rule[0] == '!' then r == rule[1..] && x == ToText(v)
      else if |rule| > 0 && rule[0] == '$' then
        r == rule[1..] && (v.Str? || v.Null? ==> JsonDecodeString(x) == Some(ToText(v)))
      else
        r == rule && MarkupFree(x) && (forall c :: c in x ==> !IsStripped(c))
        && (v.Arr? ==> x == "")
        && (!v.Arr? ==> HtmlDecode(x) == StripControl(ToText(v)))
  {
    var w := if v.Null? then Str("") else v;
    assert ToText(w) == ToText(v);
    if |rule| > 0 && rule[0] == '$' && w.Str? {
      JsonStringRoundTrip(w.s);
    }
    EscapeDefaultSafe(ToText(w));
  }

  /** The value _bind uses for a plain rule: a non-array is wrapped in a
      one-element array, and only the element at index 0 is used, and only
      when it is set and not null (templatte.php:287-298). */
  function SimpleValue(v: Value): (r: Option<Value>)
    ensures r.Some? ==> !r.value.Null?
    ensures !v.Arr? ==> (r.Some? <==> !v.Null?)
    ensures !v.Arr? && r.Some? ==> r.value == v
    ensures v.Arr? ==> (r.Some? <==> Lookup(v.entries, "0").Some? && !Lookup(v.entries, "0").value.Null?)
    ensures v.Arr? && r.Some? ==> Some(r.value) == Lookup(v.entries, "0")
  {
    if v.Arr? then
      match Lookup(v.entries, "0")
      case None => None
      case Some(x) => if x.Null? then None else Some(x)
    else if v.Null? then None
    else Some(v)
  }

  /** The plain branch of _bind: every `{R}` (R as get_replacement leaves
      it) becomes the replacement; nothing happens for a value it skips. */
  function BindPlain(template: string, rule: string, v: Value): string
  {
    match SimpleValue(v)
    case None => template
    case Some(x) =>
      var (p, repl) := GetReplacement(rule, x);
      ReplaceAll(template, "{" + p + "}", repl)
  }

  /** A placeholder with the default hint is filled with the escaped text
      of a string value: the first occurrence gets it, the text in front is
      kept, and what follows is bound the same way. */
  lemma {:induction false} BindPlainFirst(template: string, rule: string, s: string, k: nat, w: nat)
    requires |rule| > 0 && rule[0] != '!' && rule[0] != '$'
    requires Occurs(template, "{" + rule + "}", k) && w == k + |rule| + 2
    requires forall j :: 0 <= j < k ==> !Occurs(template, "{" + rule + "}", j)
    ensures BindPlain(template, rule, Str(s)) == template[..k] + EscapeDefault(s) + BindPlain(template[w..], rule, Str(s))
  {
    var pat, rep := "{" + rule + "}", EscapeDefault(s);
    var tail := template[w..];
    BindPlainStr(template, rule, s);
    BindPlainStr(tail, rule, s);
    ReplaceAllFirstAt(template, pat, rep, k, w);
  }

  /** A string value under the default hint binds its escaped text. */
  lemma {:induction false} BindPlainStr(template: string, rule: string, s: string)
    requires |rule| > 0 && rule[0] != '!' && rule[0] != '$'
    ensures BindPlain(template, rule, Str(s)) == ReplaceAll(template, "{" + rule + "}", EscapeDefault(s))
  {
    assert GetReplacement(rule, Str(s)) == (rule, EscapeDefault(s));
  }

  /** A null value, or an array without an element at index 0, binds
      nothing. */
  lemma {:induction false} BindPlainSkips(template: string, rule: string, v: Value)
    requires v.Null? || (v.Arr? && Lookup(v.entries, "0").None?)
    ensures BindPlain(template, rule, v) == template
  {
  }
}
