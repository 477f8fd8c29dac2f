# normalizeText, modelled in Dafny

This project models `normalizeText` from `src/app/components/utils/Utils.tsx`. It is the
one piece of logic in a small customer-list web UI. The function turns a piece of text into
a comparison key. It works in four steps:

1. It throws a `TypeError` ("Input must be a string") when its argument is not a string.
2. It builds a character table with a loop over two parallel strings, `from` and `to`.
3. It removes every whitespace character.
4. It substitutes each remaining character through the table, or keeps it when it is not a
   key, and then lowercases the result.

The two strings are misaligned. `from` has 15 characters: `s é í ó ú á É Í Ó Ú Á É Í Ó Ú`.
`to` has 16: `s e i o u a A E I O U a e i o u`. The upper-case vowels occur twice in `from`,
and `Map.set` keeps the last write. So the table binds `É→a Í→e Ó→i Ú→o Á→U`, next to
`é→e í→i ó→o ú→u á→a s→s`, and the last `u` of `to` is never read. The model follows the
code. So it proves `normalizeText("É") == "a"`, `normalizeText("Ó") == "i"` and
`normalizeText("Ángel Pérez") == "ungelperez"`.

Files and modules:

- `wrappers.dfy` (`Wrappers`): the `Result` datatype, which stands for a return or a throw.
- `js_string.dfy` (`JsString`): the JavaScript built-ins the function uses. `IsWhitespace` is the
  `\s` class: the WhiteSpace code points of ECMA-262 section 12.2 and the LineTerminator code
  points of section 12.3. `ToLowerChar` and `ToLowerCase` model `toLowerCase`.
- `utils.dfy` (`Utils`): the function itself. It holds the argument type (`Str(s)` or
  `NonString`), the constants `From` and `To`, and `BuildTable`, the table-building loop
  written as a method with a `while` loop and a `map<char, char>` it updates. It also holds
  the pipeline as functions (`RemoveWhitespace`, `Substitute`, `NormalizeWith`, `Normalize`)
  and `NormalizeText`, the whole call.
- `table_properties.dfy` (`TableProperties`): what the loop produces.
- `normalize_properties.dfy` (`NormalizeProperties`): properties of the pipeline. The
  independent reference is `SinglePass`, which maps each character to its image in one pass.
- `worked_cases.dfy` (`WorkedCases`): concrete inputs and outputs.

`mapping.get(char) || char` is modelled as get-or-default (`GetOrSelf`). A value in the
table is a one-character string, which is never falsy, so `||` falls back to `char` only
when the key is missing.

`to` looks meant to map each accented vowel to its plain vowel (`É→e`, `Ó→o`,
`"Ángel Pérez"→"angelperez"`). It is one character out of step, so the code gives `a`, `i`
and `ungelperez`, and the model follows the code. Lowering the input first is therefore not
neutral: `Normalize(ToLowerCase("É"))` is `"e"`, while `Normalize("É")` is `"a"`
(`WorkedCases.LoweringFirstDiffers`). It is neutral only for input without the five
upper-case keys (`NormalizeProperties.CaseInsensitiveOutsideCapitalKeys`).

## Model

| member | source | states |
|---|---|---|
| Utils.NormalizeText | src/app/components/utils/Utils.tsx:1-22 | A non-string argument gives exactly the TypeError "Input must be a string", and a string never does. A string `s` gives `Normalize(s)`, computed with the table that `BuildTable` built from `From` and `To`. |
| Utils.BuildTable | src/app/components/utils/Utils.tsx:9-12 | The loop returns the table after all `|from|` calls of `mapping.set(from[i], to[i])`, in order. Its invariant is the table after the first `i` calls. |
| JsString.ToLowerChar | src/app/components/utils/Utils.tsx:19 | The lowered character is never a capital. It is whitespace exactly when the input is. It differs from the input exactly when the input is a capital. |
| JsString.ToLowerCaseAt | src/app/components/utils/Utils.tsx:19 | `toLowerCase` keeps the length, lowers each character in place and leaves no capital. |
| JsString.IsWhitespace | src/app/components/utils/Utils.tsx:15 | The `\s` class. Its contract is carried by `NormalizeProperties.RemoveWhitespaceClean` and `RemoveWhitespaceKeeps`: no character it accepts survives whitespace removal, and every character it rejects is kept. |
| JsString.ToLowerCase | src/app/components/utils/Utils.tsx:19 | Specified by `JsString.ToLowerCaseAt`: same length, each character lowered in place, no capital left. |
| Utils.SetEntry | src/app/components/utils/Utils.tsx:11 | One `mapping.set(from[i], to[i])`. Specified by `TableProperties.LastWriteWins`: a later write to the same key replaces an earlier one. |
| Utils.TableAfter | src/app/components/utils/Utils.tsx:10-12 | The table after the first `n` iterations. Specified by `TableProperties.LastWriteWins`, `OnlyWrittenKeys` and `UnreadTail`, and equal to what `Utils.BuildTable` returns. |
| Utils.GetOrSelf | src/app/components/utils/Utils.tsx:17 | Looking a character up with its own value as fallback. Specified by `NormalizeProperties.SubstituteAt` and `SubstituteOutsideKeys`: a key gives its entry, any other character gives itself. |
| Utils.RemoveWhitespace | src/app/components/utils/Utils.tsx:15 | Specified by `NormalizeProperties.RemoveWhitespaceClean`, `RemoveWhitespaceConcat` and `RemoveWhitespaceKeeps`. |
| Utils.Substitute | src/app/components/utils/Utils.tsx:16-18 | Specified by `NormalizeProperties.SubstituteAt` and `SubstituteOutsideKeys`. |
| Utils.NormalizeWith | src/app/components/utils/Utils.tsx:14-19 | The pipeline over any table. Specified by `NormalizeProperties.PipelineIsSinglePass`: it equals the one-pass reference `SinglePass`. |
| Utils.Normalize | src/app/components/utils/Utils.tsx:14-19 | The pipeline over the source's table. Specified by `NormalizeProperties.NormalizeAt`, `OutputLength`, `OutputShape`, `Idempotent` and `NormalizeConcat`. |
| TableProperties.LastWriteWins | src/app/components/utils/Utils.tsx:10-12 | After `n` iterations, a key's entry is the `to` character at that key's last position in `from`. The key is absent when that position is past the end of `to`. |
| TableProperties.OnlyWrittenKeys | src/app/components/utils/Utils.tsx:10-12 | A character that does not occur in the first `n` characters of `from` is not a key. |
| TableProperties.UnreadTail | src/app/components/utils/Utils.tsx:10-12 | The table depends on `to` only through its first `|from|` characters. |
| TableProperties.SixteenthCharacterUnread | src/app/components/utils/Utils.tsx:6-12 | `from` has 15 characters and `to` has 16. Replacing the 16th character of `to` by any character gives the same table. |
| TableProperties.SourceTableContents | src/app/components/utils/Utils.tsx:6-12 | The table built from the source's two strings is exactly the 11-entry map `s→s é→e í→i ó→o ú→u á→a É→a Í→e Ó→i Ú→o Á→U`. |
| NormalizeProperties.PipelineIsSinglePass | src/app/components/utils/Utils.tsx:14-19 | For every table, removing whitespace, then substituting, then lowercasing equals the one-pass reference. That reference drops whitespace and replaces every other character by its entry (or itself), lowered. |
| NormalizeProperties.RemoveWhitespaceClean | src/app/components/utils/Utils.tsx:15 | The result has no whitespace. It is never longer than the input. Input without whitespace comes back unchanged. |
| NormalizeProperties.RemoveWhitespaceConcat | src/app/components/utils/Utils.tsx:15 | Whitespace removal distributes over concatenation, so the kept characters stay in their order. |
| NormalizeProperties.RemoveWhitespaceKeeps | src/app/components/utils/Utils.tsx:15 | Every non-whitespace character occurs in the result as often as in the input. No whitespace character occurs in it at all. |
| NormalizeProperties.SubstituteAt | src/app/components/utils/Utils.tsx:16-18 | Substitution keeps the length and replaces each character in place by its table entry, or keeps it when it is not a key. |
| NormalizeProperties.SubstituteOutsideKeys | src/app/components/utils/Utils.tsx:17 | Text with no table key passes the substitution step unchanged. |
| NormalizeProperties.NormalizeAt | src/app/components/utils/Utils.tsx:14-19 | The output has the input's non-whitespace characters, in their order, each passed through the table (or kept) and then lowered. |
| NormalizeProperties.OutputLength | src/app/components/utils/Utils.tsx:14-19 | The output is never longer than the input. It is exactly as long when the input has no whitespace. |
| NormalizeProperties.OutputShape | src/app/components/utils/Utils.tsx:14-19 | The output holds no whitespace and no capital letter, so in particular no `A`-`Z`. The only table key that can occur in the output is `s`. |
| NormalizeProperties.PlainTextOnlyLowercased | src/app/components/utils/Utils.tsx:14-19 | For text with no whitespace and no table key, normalizing is only lowercasing. |
| NormalizeProperties.OutputCharIsFixed | src/app/components/utils/Utils.tsx:6-19 | Each output character is not whitespace, and substituting then lowering it gives it back. The only key that can reach the output is the self-mapped `s`. |
| NormalizeProperties.Idempotent | src/app/components/utils/Utils.tsx:14-19 | Normalizing an output again returns it unchanged. |
| NormalizeProperties.NormalizeConcat | src/app/components/utils/Utils.tsx:14-19 | Normalizing a concatenation gives the concatenation of the normalized parts. |
| NormalizeProperties.CaseInsensitiveOutsideCapitalKeys | src/app/components/utils/Utils.tsx:14-19 | Lowercasing the input first does not change the output, provided the input holds none of the upper-case keys `É Í Ó Ú Á`. |
| NormalizeProperties.LoweredCharImage | src/app/components/utils/Utils.tsx:17-19 | Lowering one character first changes its image only if it is an upper-case key. |
| WorkedCases.WorkedEmpty | src/app/components/utils/Utils.tsx:14-19 | The empty string gives the empty string. |
| WorkedCases.WorkedSingleCharacters | src/app/components/utils/Utils.tsx:6-19 | "É" gives "a", "Ó" gives "i", "Á" gives "u" (through the capital "U" in `to`), and "é" gives "e". |
| WorkedCases.WorkedName | src/app/components/utils/Utils.tsx:6-19 | "Ángel Pérez" gives "ungelperez". |
| WorkedCases.WorkedHola | src/app/components/utils/Utils.tsx:14-19 | "HOLA" and "hola" both give "hola". |
| WorkedCases.LoweringFirstDiffers | src/app/components/utils/Utils.tsx:6-19 | Lowering "É" before normalizing gives "e". Normalizing "É" directly gives "a". |

## Left out

- `src/app/clientes/lista/ListaClientes.tsx` is not part of this model. It is a React
  component: styled elements, hook state, dialogs, and `fetch` calls to a REST server.
- JsString.ToLowerChar: lowers only ASCII `A`-`Z` and the Latin-1 capitals U+00C0 to U+00DE
  (except U+00D7), and leaves every other character unchanged. Full Unicode lowercasing is a
  library table, and some of its mappings change the length of the string (for example U+0130).
- Strings are sequences of Unicode characters. JavaScript's UTF-16 code units are not modelled.
  This does not change any result: no table key, whitespace character or modelled capital is
  outside the Basic Multilingual Plane, so `split("")` splitting a surrogate pair and `join`
  rejoining it has no visible effect. A decomposed accent such as "e" followed by U+0301 is
  two characters, neither of which is a key, as in the source.
- `.replace(/\s+/g, "")` removes runs of whitespace. The model removes whitespace one character
  at a time, which gives the same result. The regular-expression engine is not modelled.
- A non-string argument is represented only as `NonString`; its value and its `typeof` tag are
  not modelled, since the source only tests for `"string"`. The throw is modelled as a
  `Failure` result. Nothing after the guard runs in that case, in the model as in the source.
- Utils.SetEntry: `to[i]` past the end of `to` would be `undefined`, which makes `get` fall back
  just as for a missing key, so `SetEntry` removes the key instead of storing a value. The
  source's own strings never reach this case, because `to` is the longer of the two.
