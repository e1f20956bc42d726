# Templatte in Dafny

Templatte is a small PHP template engine. A template string is loaded,
guarded by a security token, filled in by a sequence of `bind` and `repeat`
calls, and finally rendered with `get()`. This project models the engine's
core and proves properties about it:

- **The token guard** (`apply_security_token`). A process-wide token
  `-sec-token-` plus ten random letters is made once. Every `}` of the
  template and every `if:`, `if!:` and `repeat:` tag then get the token
  appended. Text a caller binds later cannot forge a placeholder or a tag,
  because it does not know the token. `get()` removes the token from every
  `}` again.
- **The value binder** (`bind`, `repeat`, `_bind`, `get_replacement`).
  - A plain rule replaces every `{RULE}` with the value, escaped according
    to the rule's hint character:
    - none: control characters are stripped, then `htmlspecialchars` is
      applied;
    - `!`: raw;
    - `$`: `json_encode`.
  - An `if:` rule runs the conditional engine.
  - A `repeat:` rule runs the repeat engine.
- **The conditional engine** (`replace_if`, `_replace_if`). While an opening
  tag `<R>` comes before the first closing tag `</R>`, the block is replaced
  by its content (shown) or by nothing (hidden). This first runs for the
  rule and then for its negative form `if!:`.
- **The repeat engine** (`replace_repeat`). Before every block of the rule,
  one filled copy of the block's text is inserted, with the iteration's
  nested rules applied. The block itself stays in place for later
  iterations.
- **The finalizer** (`get`, `create_urls`). Repeat blocks still in the text
  are cut out and remaining `if:` blocks are hidden. `URL:` placeholders are
  resolved, and the token is stripped from the braces.
- **The loader pieces** (`__construct` for a string source, and
  `replace_langs`). They translate `{L:...}` placeholders before the token
  is applied.

Modules:

| module | contents |
|---|---|
| `Text` | `strpos`, `str_replace`, `substr` and `substr_replace` as functions with their defining properties |
| `Escape` | the three escapings, with reference decoders and round-trip lemmas |
| `Values`, `Binder` | PHP values, truthiness, `get_replacement` and the plain branch of `_bind` |
| `Token` | the token, the process-wide `Context` class and the wrap/unwrap functions |
| `Scan` | the ungreedy `preg_match_all` captures the engine uses |
| `Conditional` | the collapse loop and `replace_if` |
| `Repeat` | `replace_repeat` |
| `Finalize` | `get()` and `create_urls` |
| `Dispatch` | `_bind`, `bind(array)` and `replace_langs` as functions |
| `Engine` | the `Templatte` class |

The source's loops over the template are methods of `Engine.Templatte` with
a `while` or `for` loop. Two loops are elsewhere: the token's ten draws
(templatte.php:708-710) are the `for` loop of `Token.Context.EnsureToken`, and
`_bind`'s loop over a one-name rule (templatte.php:291-299), which runs at most
once, is a `match` in `Engine.Templatte.BindOne`. Each method's `ensures` ties
its result and the new `template` field to a specification function in the
other modules. The lemmas there
state what those functions promise: round trips, invariants, the effect on
concrete template shapes, and what stays unchanged.

## Model

| member | source | states |
|---|---|---|
| Text.IndexOf | templatte.php:356-357 | strpos: a found index is an occurrence at or after the offset with no earlier one, and "not found" means no occurrence at or after the offset |
| Text.IndexOfChar | templatte.php:476 | strpos(name, '>') === false exactly when the name contains no `>` |
| Text.ReplaceAllFirst | templatte.php:294 | str_replace replaces the leftmost occurrence and continues behind it |
| Text.ReplaceAllAbsent | templatte.php:294 | str_replace with a search string that does not occur changes nothing |
| Text.ReplaceAllKeepsPrefix | templatte.php:294 | a prefix without the search string's first character passes through str_replace unchanged |
| Text.Substr | templatte.php:364 | substr inside the text is the slice between start and start + length, and never longer than the text |
| Text.Splice | templatte.php:367 | substr_replace keeps the text before pos, inserts the replacement and resumes after pos + len; its length follows from that |
| Escape.StripControl | templatte.php:257 | the result holds exactly the characters of the input that are not in the stripped control range, is no longer, and equals the input when nothing is stripped |
| Escape.StripControlAppend | templatte.php:257 | stripping works character by character: the strip of a concatenation is the concatenation of the strips, so kept characters keep their order and number |
| Escape.HtmlEscape | templatte.php:257 | htmlspecialchars with ENT_QUOTES leaves no markup-significant character, and adds only entity characters |
| Escape.HtmlRoundTrip | templatte.php:257 | htmlspecialchars_decode undoes htmlspecialchars, so the escaping loses nothing |
| Escape.EscapeDefaultSafe | templatte.php:257 | the default escaping leaves no control character and no raw markup; decoding it gives the input without control characters, and tab, newline and CR survive |
| Escape.ParseHex4Inverse | templatte.php:252 | the four hexadecimal digits of a \u escape read back as the code unit |
| Escape.JsonCharsRoundTrip | templatte.php:252 | decoding the escaped characters of json_encode gives the string back |
| Escape.JsonStringRoundTrip | templatte.php:252 | json_encode of a string is a quoted JSON literal that decodes to the string |
| Escape.JsonString | templatte.php:252 | json_encode of a string starts and ends with a double quote |
| Values.Lookup | templatte.php:292 | an entry is found exactly when the array has that key, and the value found is stored under it |
| Binder.ReplacementByHint | templatte.php:236-261 | `!` cuts the hint and keeps the text raw; `$` cuts it and JSON-encodes; otherwise the name is kept and the text is stripped and HTML-escaped, while an array gives "" because htmlspecialchars returns null for it; null counts as "" |
| Binder.SimpleValue | templatte.php:284-292 | a non-array value is used exactly when it is not null; an array contributes its element at index 0 when set; the value used is never null |
| Binder.BindPlainStr | templatte.php:294 | a string bound to a rule without a hint replaces every `{RULE}` with its default escaping |
| Binder.BindPlainFirst | templatte.php:294 | the first `{RULE}` gets the escaped value, the text before it is kept, and binding continues behind it |
| Binder.BindPlainSkips | templatte.php:291-298 | a null value, or an array without index 0, leaves the template unchanged |
| Token.TokenChars | templatte.php:711 | a generated token starts with `-` and contains no `{`, `}`, `<`, `>`, `:` or newline, so it cannot end or open template syntax |
| Token.Letters | templatte.php:708-710 | ten rand(97, 122) draws give ten characters, each a lower-case letter a to z |
| Token.Context.constructor | templatte.php:64-104 | a fresh process has no token yet and the given URL and language resolvers |
| Token.Context.EnsureToken | templatte.php:706-712 | the token is generated from the draws if it is empty and kept otherwise; afterwards it has the token shape |
| Token.WrapBracesGuarded | templatte.php:714 | after the brace wrap every `}` comes right after the token |
| Token.UnwrapWrap | templatte.php:506 | the token strip in get() undoes the brace wrap |
| Token.TagEnd | templatte.php:715 | a tag the wrap matches starts with `<` or `</` and a keyword `if:`, `if!:` or `repeat:`, and ends at a `>` behind the keyword |
| Token.TagEndMatch | templatte.php:715 | the ungreedy tag match ends at the first `>` that follows at least one character behind the keyword, with no line feed before it; no match means every such `>` has a line feed before it |
| Token.TagEndBehind | templatte.php:715 | behind `<` or `</` and a keyword, the match ends at the `>` right behind a name free of `>` and line feeds |
| Token.WrapTagAt | templatte.php:715 | behind tag-free text, the tag `<K N>` or `</K N>` gets the token before its `>`, and the wrap continues behind the tag |
| Token.WrapOtherTag | templatte.php:715 | a tag that does not start with a keyword, such as `<div>` or `</p>`, passes the tag wrap unchanged |
| Token.GuardBlock | templatte.php:705-716 | guarding a template with one block `<K N>B</K N>` and no `}` puts the token into both tags and changes nothing else |
| Token.WrapTagsPlain | templatte.php:715 | text without `<` passes the tag wrap unchanged |
| Token.WrapPlainRoundTrip | templatte.php:705-716 | for text without tags, the whole guard leaves no `<`, and the strip in get() gives the text back |
| Scan.MatchAt | templatte.php:496 | a match starts with the lead and head and runs, without a line break, to an occurrence of the closing pattern inside the text |
| Scan.Captures | templatte.php:496 | every capture starts with the group's head and ends with its tail |
| Scan.NoCaptures | templatte.php:496 | text without the pattern's first character has no match |
| Scan.CapturesBehind | templatte.php:496 | a prefix in which no match can start adds no capture |
| Scan.CapturesFirst | templatte.php:496 | a match at the start is the first capture, and scanning resumes after it |
| Conditional.OverlapWitness | templatte.php:364 | when the closing tag starts inside the opening tag, the rule's tags overlap, which is the only case where substr gets a negative length |
| Conditional.OpenCloseApart | templatte.php:364 | for a rule whose tags cannot overlap, the content between the tags is well defined |
| Conditional.NoLtNoOverlap | templatte.php:356-364 | a rule without `<` has tags that cannot overlap |
| Conditional.Pair | templatte.php:356-358 | the loop continues only with an opening tag found before a closing tag, at both occurrences |
| Conditional.PairOf | templatte.php:356-358 | both strpos results were found, the opening one first |
| Conditional.CollapseShape | templatte.php:362-367 | one pass removes the block, keeps the content only when shown, and shortens the text |
| Conditional.CollapseIf | templatte.php:356-368 | the loop's result is never longer than its input |
| Conditional.CollapseIfDone | templatte.php:356-358 | when the loop ends, no opening tag precedes the first closing tag |
| Conditional.CollapseShrinks | templatte.php:367 | every pass shortens the text, which is why the loop ends |
| Conditional.CollapsePlain | templatte.php:356 | text without `<` comes out unchanged |
| Conditional.CollapseIfStep | templatte.php:356-368 | the loop collapses the pair it finds and continues on the result |
| Conditional.CollapseBehind | templatte.php:356-368 | text before the first tag is kept in front of the collapsed rest |
| Conditional.CollapseTurn | templatte.php:359-367 | one loop turn computed with the tag lengths shortens the text and leaves the final result unchanged |
| Conditional.CollapseNext | templatte.php:356-368 | after a pass at the pair the loop condition found, the text is shorter and the loop's final result is unchanged |
| Conditional.CollapseBlock | templatte.php:356-368 | one block between tag-free text becomes its content when shown and disappears when hidden |
| Conditional.NotRuleOfIf | templatte.php:323-327 | the negative form of `if:N` is `if!:` followed by N without its colons, so it is `if!:N` when N has no colon |
| Conditional.NotRuleChars | templatte.php:327 | the negative form adds no character except `!` and `:` |
| Conditional.ReplaceIfSpec | templatte.php:320-335 | with a truthy fragment the template is untouched; otherwise the returned text is the new template; the template never grows |
| Conditional.SafeWithoutLt | templatte.php:320-335 | a rule without `<` can be applied with either truth value |
| Conditional.IfPasses | templatte.php:330-331 | the two passes over one block of any rule whose tags cannot overlap show its content exactly when `show` |
| Conditional.IfBlock | templatte.php:320-335 | binding an if rule on the template shows the block's content when true and removes the block when false |
| Conditional.IfBlockIn | templatte.php:320-335 | on a fragment, the block is shown or hidden inside the returned fragment and the template is unchanged |
| Conditional.IfPairPasses | templatte.php:330-331 | the two passes over a block of a rule followed by a block of its negative form show exactly one of the two contents: the first when `show`, the second otherwise |
| Conditional.IfPair | templatte.php:320-335 | binding an if rule on a template with its positive and its negative block shows the positive content when true and the negative content when false, and removes the other block |
| Conditional.IfPairIn | templatte.php:320-335 | on a fragment with both blocks, the same choice is made inside the returned fragment and the template is unchanged |
| Conditional.IfOnEmptyFragment | templatte.php:331 | an empty fragment is not truthy, so the negative pass runs on the template and both results are that pass's output |
| Conditional.NotBlock | templatte.php:331 | the negative block `if!:N` shows its content exactly when the rule is false |
| Conditional.NoPositiveTag | templatte.php:356 | text whose only tags are negative ones contains no positive opening tag |
| Repeat.ApplyNested | templatte.php:408-417 | nested rules never make the template longer |
| Repeat.ApplyPlain | templatte.php:412-416 | nested rules without `if:` keys leave the template alone and fill the text one str_replace per rule |
| Repeat.RepeatTurn | templatte.php:401-422 | after a turn the cursor lies behind the original block, so the work left shrinks |
| Repeat.RepeatDone | templatte.php:398 | with no `<` at or after the cursor, the loop stops and keeps the template |
| Repeat.RepeatStop | templatte.php:398-400 | when the tags are not found in order after the cursor, the loop stops and keeps the template |
| Repeat.RepeatStep | templatte.php:398-422 | the loop inserts the filled copy before the block found after the cursor and continues behind the block |
| Repeat.TurnPlain | templatte.php:405-419 | with plain nested rules a turn inserts the filled block text before the opening tag |
| Repeat.RepeatOnce | templatte.php:392-424 | one iteration on one block inserts the filled copy before the block and keeps the block for later iterations |
| Repeat.RepeatOnceIf | templatte.php:392-424 | one iteration whose nested rule is an if rule on a block holding that if block: the copy before the block shows the if block's content exactly when the value is truthy, and the template's block, nested tags included, is kept |
| Repeat.RepeatTwice | templatte.php:392-424 | two iterations bound one after the other appear in binding order before the block |
| Finalize.CutAt | templatte.php:463-493 | a cut from a `<repeat:` leaves a shorter text that still reaches the cursor |
| Finalize.CutNamed | templatte.php:476-485 | a cut for a found name leaves a shorter text that still reaches the cursor |
| Finalize.CutNamedBy | templatte.php:476-485 | nothing is cut when the name contains `>` or its closing tag is missing; otherwise exactly the block from `<` to the end of the closing tag is removed |
| Finalize.SweepRepeats | templatte.php:463-494 | the repeat sweep never makes the text longer |
| Finalize.SweepPlain | templatte.php:463 | text without `<` after the offset ends the sweep unchanged |
| Finalize.SweepDone | templatte.php:463 | with no `<repeat:` after the offset, the sweep is done |
| Finalize.SweepStep | templatte.php:463-493 | after a cut the sweep continues at the block's start in the shortened text |
| Finalize.SweepTurn | templatte.php:463-493 | each turn either shortens the text or advances the offset, so the loop ends |
| Finalize.SweepBlock | templatte.php:463-494 | a repeat block left in the text is removed entirely, with the text around it kept |
| Finalize.IfNames | templatte.php:496 | every left-over if rule starts with `if:` and is long enough to carry the token |
| Finalize.IfSweep | templatte.php:497-499 | hiding the left-over rules never makes the template longer |
| Finalize.IfSweepTurn | templatte.php:497-499 | one rule hidden, the rest of the sweep continues from the result |
| Finalize.UrlNames | templatte.php:619 | every URL placeholder name starts with `URL:` |
| Finalize.UrlsOnlyInText | templatte.php:614-642 | the names are collected from the template, so a template without `{` leaves the text unchanged even where the text holds a URL placeholder |
| Finalize.UrlsSingle | templatte.php:614-642 | one placeholder `{URL:P}` in the template gives way to the stripped and HTML-escaped URL of P, and the text around it is kept |
| Finalize.GetSpec | templatte.php:456-509 | rendering never makes the template longer |
| Finalize.GetAfterSweep | templatte.php:456-509 | when the sweep leaves no tag and the template has no placeholder, get() returns the swept text without the token and keeps the template |
| Finalize.GetPlain | templatte.php:456-509 | text without tags and placeholders renders as itself without the token |
| Finalize.LoadThenRender | templatte.php:705-716 | guarding plain text and then rendering it gives the original text back |
| Finalize.RenderRepeat | templatte.php:456-509 | after one iteration with plain rules, a repeat block renders as the filled copy, with the block itself gone and the token stripped; the template is kept, so a second get() renders the same |
| Finalize.IfNamesPositive | templatte.php:496 | in a text with one positive if block, the if search finds exactly that block's rule |
| Finalize.IfNamesNegative | templatte.php:496 | a negative if block adds no name to the if search |
| Finalize.GetIfHidden | templatte.php:456-509 | an if block left unbound counts as false: get() drops the block, keeps the text around it, strips the token and keeps the template |
| Finalize.GetNestedIf | templatte.php:456-509 | an if block nested in another, both unbound: the outer rule hides both blocks, and get() returns the text around them when that text is truthy in PHP; when it is "" or "0", replace_if's fallback makes get() return the whole template, nested blocks included; the template is kept either way |
| Finalize.GetIfPair | templatte.php:456-509 | an unbound if rule with its positive and its negative block: get() drops the positive block, shows the negative block's content and keeps the template |
| Finalize.GetNegativeOnly | templatte.php:496-499 | a negative block whose positive block is absent is not found by the if search, so get() leaves it in place with its tags and strips only the token |
| Dispatch.BindAllAppend | templatte.php:194-198 | binding two arrays in turn is the same as binding their concatenation |
| Dispatch.BindIf | templatte.php:277-278 | an if rule bound to a value shows or hides its block according to the value's PHP truthiness |
| Dispatch.BindRepeat | templatte.php:280-281 | a repeat rule bound to an array inserts one filled iteration before its block |
| Dispatch.RepeatRuleName | templatte.php:214-215 | `repeat:` + name + token is a repeat rule, not an if rule, and its tags cannot overlap |
| Dispatch.BindAbsent | templatte.php:294 | binding a plain rule whose placeholder `{R}` does not occur leaves the template as it is, whatever other placeholders it holds |
| Dispatch.LangNames | templatte.php:667 | every language placeholder name starts with `L:` |
| Dispatch.LangRule | templatte.php:670 | a language placeholder is bound as a plain rule |
| Dispatch.LangsTurn | templatte.php:668-683 | a name seen before is skipped; a new one is bound once and remembered |
| Dispatch.LangsPlain | templatte.php:662-686 | a template without `{` is not changed by replace_langs |
| Dispatch.LangsSingle | templatte.php:662-686 | one `{L:K}` placeholder is replaced by the escaped translation of K |
| Dispatch.LangsOneName | templatte.php:662-686 | with one placeholder name, replace_langs is one plain bind of that name |
| Text.PlaceholderOnce | templatte.php:294 | str_replace on a text with one occurrence after a prefix replaces just that one |
| Engine.Templatte.constructor | templatte.php:130-181 | a string source, optionally translated, is guarded by the process token, which is created when missing and kept otherwise |
| Engine.Templatte.ApplySecurityToken | templatte.php:705-716 | the token is made once per process and kept; the template becomes its guarded form |
| Engine.Templatte.BindOne | templatte.php:276-301 | the template becomes what _bind's dispatch specifies for the rule and value |
| Engine.Templatte.Bind | templatte.php:193-203 | bind appends the token to the rule and then binds |
| Engine.Templatte.BindAll | templatte.php:194-198 | bind(array) binds every entry in order, each rule with the token appended |
| Engine.Templatte.Repeat | templatte.php:214-218 | repeat(name, rules) is bind('repeat:' + name, rules) |
| Engine.Templatte.ReplaceIf | templatte.php:320-335 | the returned text and the new template are the two passes of replace_if |
| Engine.Templatte.ReplaceIfIn | templatte.php:348-375 | the loop's result is the collapse of the fragment, or of the template, which is then written back |
| Engine.Templatte.ReplaceRepeat | templatte.php:392-424 | the template becomes the repeat loop's result with the value's entries as nested rules |
| Engine.Templatte.FillCopy | templatte.php:405-416 | the block's text and the template become what the nested rules, applied in order, make of them |
| Engine.Templatte.Get | templatte.php:456-509 | the result and the template afterwards are what rendering specifies: sweep, hide, resolve URLs, strip the token |
| Engine.Templatte.CutRepeat | templatte.php:463-493 | one turn of the repeat sweep, in the source's order of checks |
| Engine.Templatte.CreateUrls | templatte.php:614-642 | the loop's result is create_urls' specification, which UrlsSingle and UrlsOnlyInText characterise: each URL placeholder found in the template is resolved once and replaced in the text |
| Engine.Templatte.ReplaceLangs | templatte.php:662-686 | the template becomes its translation: each language placeholder bound once |

## Left out

- Loading from a file (constructor option `type` other than `'string'`, with `dir` and `ext`): file I/O is outside the model.
- replace_tags, replace_params and replace_urls, called by the constructor: they depend on PHP constants and `defined()`, which the model has no equivalent for. The constructor models the `langs` step and the token guard only.
- The handler setters set_url_handler and set_lang_handler, and the `method_exists` checks: the resolvers are the `url` and `lang` function fields of `Token.Context`, and a handler is always assumed present.
- Default arguments: bind's value defaults to "" (templatte.php:193), and the constructor's `langs` and `urls` options default to true (templatte.php:138-139). The model has no defaults: `Engine.Templatte.Bind(rule, Str(""))` is bind without a value (so `bind('if:x')` hides the block, "" not being truthy), and passing `true` for `langs` and `urls` gives the constructor's defaults.
- rand(): the ten draws are a parameter (`draws`), required to lie in 97..122.
- raw(), __toString and the subclasses `tpl` and `peruntpl`: trivial accessors and aliases.
- PCRE: each pattern the engine uses is modelled as an explicit scan. The `U` (ungreedy) and `m` flags are modelled as the engine uses them, and no general regular-expression engine is modelled.
- Escape.HtmlEscape: models htmlspecialchars over well-formed characters only. PHP returns "" for invalid UTF-8 input, which a `seq<char>` cannot hold.
- Values.JsonEncode: a bound value is null, a string, a boolean or an array. Integers and floats are not values of the model, and neither are json_encode's error cases (for example invalid UTF-8).
- Conditional.ReplaceIfSpec: requires IfRuleSafe. When a rule's opening tag can run into its own closing tag and the block is shown, substr gets a negative length and the PHP loop can run forever. The model covers only rules that cannot do that, which includes every rule without `<`.
- Engine.Templatte.ReplaceIf: same IfRuleSafe precondition as Conditional.ReplaceIfSpec.
- Engine.Templatte.ReplaceIfIn: requires MayCollapse, for the same reason.
- Engine.Templatte.BindOne: requires BindSafe, which is IfRuleSafe for an if rule and NestedSafe for the nested if rules of a repeat rule.
- Engine.Templatte.Bind: the same BindSafe precondition as BindOne.
- Engine.Templatte.BindAll: requires AllSafe, which is BindSafe for every entry of the array with the token appended to its rule.
- Engine.Templatte.Repeat: requires BindSafe for the repeat rule, which is NestedSafe for its nested rules.
- Engine.Templatte.ReplaceRepeat: requires NestedSafe, so every nested if rule may be applied with its value's truthiness.
- Engine.Templatte.FillCopy: requires NestedSafe, for the same reason as ReplaceRepeat.
- Engine.Templatte.Get: requires GetSafe, so every if rule left after the repeat sweep may be hidden.
- Finalize.GetSpec: its own ensures bounds only the template's length. What rendering produces is stated by the lemmas GetPlain, GetAfterSweep, LoadThenRender, RenderRepeat, GetIfHidden, GetIfPair, GetNegativeOnly and GetNestedIf, for concrete template shapes.
- Binder.ReplacementByHint: an array under the default hint gives "", as in PHP 7, where htmlspecialchars returns null for an array; PHP 8 throws a TypeError there instead.
- PHP version: the model follows PHP 7. Two error paths of PHP 8 are not modelled:
  - Text.IndexOf returns None for an offset past the end of the text, as PHP 7's strpos returns false with a warning; PHP 8 throws a ValueError. replace_repeat can pass such an offset (templatte.php:398, with the cursor of templatte.php:422) when a nested if rule's fallback has shortened the template.
  - A `!`-hinted array is cast to the text "Array", as in PHP 7; PHP 8 throws a TypeError for an array in str_replace's replacement.
- Integer width plays no role: all positions are string offsets.
- Faithful quirks, modelled as written:
  - replace_if checks the truthiness of the fragment as passed, not of the first pass's result. With a fragment of "" or "0", the second pass runs on `$this->template` and writes it back, so get() can write the template (Conditional.IfOnEmptyFragment).
  - create_urls collects its placeholder names from `$this->template`, not from the text it rewrites (Finalize.UrlsOnlyInText).
  - get() searches only for positive `<if:` tags (templatte.php:496). A negative block `if!:N` whose positive block is absent from the template is therefore never processed: it stays in the output with its tags (Finalize.GetNegativeOnly). The design intent is that an unbound rule behaves as if bound to false, which would show that block's content; the model follows the code.
  - Nested if blocks `<if:A><if:B>x</if:B></if:A>` left unbound: hiding A first removes B's block with it and leaves the text around the outer block. B is then applied to that text; when it is "" or "0", which are not truthy, the negative pass of B runs on `$this->template` (templatte.php:331), and get() returns the template, both blocks with their tags and token included (Finalize.GetNestedIf).
- The tests under the repository's test directory are not part of this model.
