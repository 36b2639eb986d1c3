# Plantilla view module: token substitution, listing and fallback views

This project is a Dafny model of the rendering and response-checking half of
the browser-side view module `Plantilla`. The module belongs to an application
that lists fencers (athletes) fetched from a microservice. The model covers:

- **Tag table.** `plantillaTags` maps ten field keys to placeholder tokens of
  the form `"### KEY ###"`.
- **Templates.** Three HTML templates of the person table: `cabecera`, the row
  template `cuerpo` and `pie`.
- **`sustituyeTags`.** Replaces every occurrence of each token in a template,
  in table order, with a field of a person record. It uses
  `convertirParticipacion` for the list of Olympic years.
- **`actualiza`.** Applies `sustituyeTags` to `cuerpo`.
- **`imprime`.** Writes the header, one row per person in vector order, and
  the footer.
- **`mostrarHome` and `mostrarAcercaDe`.** Replace a missing, non-object or
  incomplete answer by the sentinel `datosDescargadosNulos`, then build the
  title and body of the page.

The three files:

- **`JsValues.dfy`** has the JavaScript value semantics the module relies on:
  - truthiness;
  - `typeof`;
  - property access, where a missing property is `undefined`;
  - `String(x)` for the values that occur, with integers written in decimal.

  Decimal rendering is proved injective by a read-back round trip.
- **`Text.dfy`** has:
  - literal global replacement (`ReplaceAll`), which is what `replace(new RegExp(token, 'g'), v)` does;
  - the ordered chain of replacements (`ReplaceEach`);
  - templates seen as fixed pieces with slots between them (`Fill`);
  - the accumulation of parts (`Concat`).

  It also proves the lemmas that connect them.
- **`Plantilla.dfy`** has the tag table, the templates, the person record, the
  substitution, the two `forEach` loops as methods with loop invariants, and
  the two views.

The module's final call `Frontend.Article.actualizar(title, body)` is modelled
as a returned `ArticleUpdate(title, content)`.

Two details of the rendered row come straight from the code:

- **The `title` attribute.** The row template interpolates
  `plantillaTags.ID`, which the table lacks, so the row's `title` is the text
  `undefined` (`ms-plantilla.js:184`). No substitution reaches it, whatever the
  record: the contract of `Plantilla.Actualiza` states this.
- **The birth date.** The template literal of `sustituyeTags` spans two source
  lines (`ms-plantilla.js:211-212`), so a line break and four spaces follow
  the first `/` of `dia/mes/año`. `Plantilla.FechaText` models that.

## Model

| member | source | states |
|---|---|---|
| JsValues.Truthy | front-end/static-files/js/ms-plantilla.js:55-58 | `x || y` keeps every object and replaces `undefined` and `null`; for a truthy value, `typeof` gives `"object"` exactly when it is an object |
| JsValues.TypeOf | front-end/static-files/js/ms-plantilla.js:58-61 | `typeof x === "undefined"` holds exactly when `x` is `undefined`, and `typeof x === "object"` exactly of objects and `null` |
| JsValues.ToString | front-end/static-files/js/ms-plantilla.js:84-88 | `String(x)` of a string is the string itself; of any other value it is non-empty text with no `#` and no `$`, and of a number it reads back as that number |
| JsValues.NatToString | front-end/static-files/js/ms-plantilla.js:211-212 | the decimal text of a number is non-empty, all digits, and starts with `0` only for zero |
| JsValues.NatToStringRoundTrip | front-end/static-files/js/ms-plantilla.js:211-212 | reading the decimal digits back gives the number |
| JsValues.IntToString | front-end/static-files/js/ms-plantilla.js:225 | for a safe integer, `String(n)` is non-empty, made of digits and a minus sign, and starts with `-` exactly for negatives |
| JsValues.IntToStringRoundTrip | front-end/static-files/js/ms-plantilla.js:225 | reading back the signed text gives the integer |
| JsValues.IntToStringInjective | front-end/static-files/js/ms-plantilla.js:211-212 | different integers are written differently |
| Text.ReplaceAll | front-end/static-files/js/ms-plantilla.js:216 | `replace(new RegExp(token, 'g'), v)` as a left-to-right scan replacing non-overlapping occurrences; replacing a pattern by itself changes nothing |
| Text.ReplaceAllAbsent | front-end/static-files/js/ms-plantilla.js:214-225 | a global replace of a pattern that does not occur leaves the string unchanged |
| Text.ReplaceAllWhole | front-end/static-files/js/ms-plantilla.js:214-225 | a string that is exactly the pattern becomes the replacement |
| Text.ReplaceAllSplit | front-end/static-files/js/ms-plantilla.js:214-225 | replacing in `a + b` is replacing in each part when no occurrence can straddle the join |
| Text.ReplaceAllFill | front-end/static-files/js/ms-plantilla.js:214-225 | replacing in a template whose pieces hold no occurrence and border no straddling one keeps the pieces and replaces inside each slot |
| Text.ReplaceAllPrefix | front-end/static-files/js/ms-plantilla.js:214-225 | a prefix holding no occurrence of the pattern, and ending in a character outside it, is kept by a global replace |
| Text.ReplaceEachPrefix | front-end/static-files/js/ms-plantilla.js:214-225 | such a prefix, for every pattern, comes through the whole chain of replacements untouched |
| Text.ReplaceEach | front-end/static-files/js/ms-plantilla.js:214-225 | the chain of replacements in table order; replacing every pattern by itself changes nothing |
| Text.ReplaceEachAbsent | front-end/static-files/js/ms-plantilla.js:214-225 | a string holding none of the patterns comes through the whole chain of replacements unchanged |
| Text.ReplaceEachPattern | front-end/static-files/js/ms-plantilla.js:214-225 | with disjoint patterns and replacements, the chain turns each pattern into its own replacement |
| Text.ReplaceEachFill | front-end/static-files/js/ms-plantilla.js:214-225 | the chain over a framed template works slot by slot and keeps every piece |
| Text.FillPatterns | front-end/static-files/js/ms-plantilla.js:214-225 | a template whose slots hold the patterns comes out with each slot holding its replacement and each piece untouched |
| Text.FillReplacementsStable | front-end/static-files/js/ms-plantilla.js:214-225 | running the chain again over the filled template changes nothing |
| Text.FillHasSlot | front-end/static-files/js/ms-plantilla.js:183-197 | every slot value occurs in the filled template |
| Text.ConcatAppend | front-end/static-files/js/ms-plantilla.js:141 | appending the parts of `a + b` is appending those of `a`, then those of `b` |
| Text.ConcatAt | front-end/static-files/js/ms-plantilla.js:141 | part `i` sits right after the parts before it and right before those after it |
| Text.ConcatHas | front-end/static-files/js/ms-plantilla.js:141 | every part occurs in the accumulated text |
| Plantilla.Token | front-end/static-files/js/ms-plantilla.js:149-160 | a token is its key framed by `"### "` and `" ###"`, 8 characters longer than the key |
| Plantilla.TagValueSpelled | front-end/static-files/js/ms-plantilla.js:149-160 | `plantillaTags.<key>` is the string `"### " + key + " ###"` for each of the ten keys of the replacement order, and `undefined` for any other own-property name such as `ID` |
| Plantilla.TagValues | front-end/static-files/js/ms-plantilla.js:149-160 | each entry of the table is the token of its key |
| Plantilla.TagKeysTable | front-end/static-files/js/ms-plantilla.js:149-160 | the table maps exactly the ten keys, each to the token at the same position of the replacement order |
| Plantilla.TagKeysDomain | front-end/static-files/js/ms-plantilla.js:149-160 | the table's keys are exactly the ten keys |
| Plantilla.TokensWellFormed | front-end/static-files/js/ms-plantilla.js:149-160 | each token is `###`, a space, a non-empty name of capitals and `_`, a space and `###` |
| Plantilla.KeysNamed | front-end/static-files/js/ms-plantilla.js:149-160 | each key is a non-empty name of capitals and `_` |
| Plantilla.SpelledIsToken | front-end/static-files/js/ms-plantilla.js:149-160 | framing any such name gives a well-formed token |
| Plantilla.TokenInjective | front-end/static-files/js/ms-plantilla.js:149-160 | different keys have different tokens |
| Plantilla.TokensSpelled | front-end/static-files/js/ms-plantilla.js:216-225 | the replacement order uses, at each position, the token of the key at that position |
| Plantilla.TokensDistinct | front-end/static-files/js/ms-plantilla.js:149-160 | the ten tokens are pairwise different |
| Plantilla.TokensTable | front-end/static-files/js/ms-plantilla.js:216-225 | the tokens are non-empty patterns, one per replacement value |
| Plantilla.NoIdTag | front-end/static-files/js/ms-plantilla.js:184 | the table has no `ID` key, so `${plantillaTags.ID}` interpolates `"undefined"` |
| Plantilla.TokenChars | front-end/static-files/js/ms-plantilla.js:149-160 | a token holds `#` but no `<`, `>`, `$` or `/`, so it cannot meet the row's cell borders and holds no `$` pattern of a replacement string; its alphabet (`#`, space, capitals, `_`, shown by `TokensWellFormed`) has no regular-expression metacharacter |
| Plantilla.TokenNoOccurrence | front-end/static-files/js/ms-plantilla.js:149-160 | no well-formed token occurs inside a different one (`"### PESO ###"` is not in `"### PESO_ESPADA ###"`) |
| Plantilla.TokensDisjoint | front-end/static-files/js/ms-plantilla.js:149-160 | no token of the table occurs in another |
| Plantilla.HashFreeTokenFree | front-end/static-files/js/ms-plantilla.js:211-225 | a text without `#` contains no token |
| Plantilla.Cuerpo | front-end/static-files/js/ms-plantilla.js:183-197 | the row template opens with `<tr title="undefined">` and its first `<td>` |
| Plantilla.CuerpoTemplate | front-end/static-files/js/ms-plantilla.js:183-197 | `cuerpo` is the row template whose ten cells hold the ten interpolated tokens, in replacement order |
| Plantilla.RowCellsTokens | front-end/static-files/js/ms-plantilla.js:185-194 | each cell's interpolation `${plantillaTags.KEY}` is that key's token |
| Plantilla.CuerpoFill | front-end/static-files/js/ms-plantilla.js:183-197 | `cuerpo` is its fixed pieces with the tokens in its ten slots |
| Plantilla.RowSpelled | front-end/static-files/js/ms-plantilla.js:183-197 | a filled row is the opening text, the ten cells separated by `</td><td>` breaks, and the closing text |
| Plantilla.TagToken | front-end/static-files/js/ms-plantilla.js:185-194 | interpolating a key of the table gives its token |
| Plantilla.RowPiecesFrameTokens | front-end/static-files/js/ms-plantilla.js:183-197 | the pieces of `cuerpo` contain no token, and no token can straddle a piece and a cell |
| Plantilla.RowPiecesShape | front-end/static-files/js/ms-plantilla.js:183-197 | `cuerpo` has 11 pieces: its opening, nine identical cell breaks and its closing |
| Plantilla.PieceChars | front-end/static-files/js/ms-plantilla.js:183-197 | the pieces hold no `#`; cells open after a `>` and close before a `<` |
| Plantilla.FechaText | front-end/static-files/js/ms-plantilla.js:211-212 | the rendered birth date holds no `#` and no `$` |
| Plantilla.FechaTextReadBack | front-end/static-files/js/ms-plantilla.js:211-212 | the day, month and year texts are read back from the rendered date |
| Plantilla.FechaTextInjective | front-end/static-files/js/ms-plantilla.js:211-212 | different birth dates are rendered differently |
| Plantilla.ParticipacionText | front-end/static-files/js/ms-plantilla.js:229-233 | every element's text, followed by a space, occurs in the result |
| Plantilla.ParticipacionAppend | front-end/static-files/js/ms-plantilla.js:229-233 | the text of `a + b` is the text of `a` followed by that of `b` |
| Plantilla.ParticipacionAt | front-end/static-files/js/ms-plantilla.js:229-233 | element `i` is written between the elements before it and those after it, in array order and unsorted |
| Plantilla.ParticipacionLength | front-end/static-files/js/ms-plantilla.js:229-233 | an empty array gives `""`; the length is the sum of each element's text length plus one |
| Plantilla.ConvertirParticipacion | front-end/static-files/js/ms-plantilla.js:229-233 | the `forEach` loop returns the concatenation of each element's text and a space, in array order |
| Plantilla.FederadoText | front-end/static-files/js/ms-plantilla.js:222 | `"SI"` exactly when `federado === true`; every other value, truthy ones included, gives `"NO"` |
| Plantilla.Fields | front-end/static-files/js/ms-plantilla.js:216-225 | one replacement value per token |
| Plantilla.FieldsTagFree | front-end/static-files/js/ms-plantilla.js:210-225 | the derived values contain no token, so a record whose texts hold no token gives token-free replacement values |
| Plantilla.SustituyeTags | front-end/static-files/js/ms-plantilla.js:210-227 | the ten global replacements in table order; a template holding no token is returned unchanged |
| Plantilla.Actualiza | front-end/static-files/js/ms-plantilla.js:239-241 | `sustituyeTags(cuerpo, persona)`; for every record the row opens with `<tr title="undefined">`, which no substitution touches |
| Plantilla.CuerpoFilled | front-end/static-files/js/ms-plantilla.js:239-241 | substituting token-free values into `cuerpo` fills each cell with its value and keeps every other character |
| Plantilla.ActualizaFill | front-end/static-files/js/ms-plantilla.js:239-241 | the row of a token-free record is `cuerpo` with each cell holding the record's rendered field |
| Plantilla.OpeningKept | front-end/static-files/js/ms-plantilla.js:214-225 | a template starting with the opening text still starts with it after the ten replacements, whatever the values |
| Plantilla.RowStartKept | front-end/static-files/js/ms-plantilla.js:214-225 | the ten replacements keep the opening text in front, whatever follows it and whatever the values |
| Plantilla.RowStartFramesTokens | front-end/static-files/js/ms-plantilla.js:183-184 | no token occurs in the opening text or holds its last character |
| Plantilla.RowOpens | front-end/static-files/js/ms-plantilla.js:183-185 | every filled row starts with the template's opening text |
| Plantilla.RowStartTitle | front-end/static-files/js/ms-plantilla.js:184 | the opening text interpolates the missing `ID` tag as `undefined` |
| Plantilla.FechaTextShows | front-end/static-files/js/ms-plantilla.js:211-212 | the rendered date shows the day, the month and the year |
| Plantilla.ActualizaShowsFields | front-end/static-files/js/ms-plantilla.js:239-241 | the row shows every rendered field, and also the day, month and year of birth |
| Plantilla.RowStable | front-end/static-files/js/ms-plantilla.js:210-227 | substituting the same record again into its filled row changes nothing |
| Plantilla.ActualizaStable | front-end/static-files/js/ms-plantilla.js:239-241 | `sustituyeTags(actualiza(p), p) == actualiza(p)` for a token-free record |
| Plantilla.ListadoEmpty | front-end/static-files/js/ms-plantilla.js:137-147 | an empty vector gives exactly `cabecera + pie` |
| Plantilla.Listado | front-end/static-files/js/ms-plantilla.js:137-147 | the body `imprime` builds, header, rows and footer; it contains the row of every person |
| Plantilla.ListadoAt | front-end/static-files/js/ms-plantilla.js:137-147 | person `i`'s row follows the header and the earlier rows, and precedes the later rows and the footer |
| Plantilla.ListadoShowsName | front-end/static-files/js/ms-plantilla.js:137-147 | the listing shows every token-free person's name |
| Plantilla.Imprime | front-end/static-files/js/ms-plantilla.js:137-147 | the loop writes title `"Listado de nombres"` and the body header, then each row in order, then the footer |
| Plantilla.NullDatos | front-end/static-files/js/ms-plantilla.js:14-19 | the sentinel is an object with the error message and three empty fields |
| Plantilla.AsObject | front-end/static-files/js/ms-plantilla.js:55-58 | a value is kept exactly when it is an object; anything else becomes the sentinel |
| Plantilla.MostrarHome | front-end/static-files/js/ms-plantilla.js:53-64 | title `"Plantilla Home"`; the body is the answer's `mensaje` when it is an object defining it, and the sentinel's message otherwise |
| Plantilla.AcercaDeHtml | front-end/static-files/js/ms-plantilla.js:83-91 | the about template over the answer; it shows the message, author, e-mail and date |
| Plantilla.AcercaDeNulos | front-end/static-files/js/ms-plantilla.js:81-91 | the fallback about body holds the error message and three empty fields |
| Plantilla.MostrarAcercaDe | front-end/static-files/js/ms-plantilla.js:69-93 | title `"Plantilla Acerca de"`; the body is built from the answer when it is an object defining all four fields, and from the sentinel otherwise |
| Plantilla.MostrarHomeUnbound | front-end/static-files/js/ms-plantilla.js:53-64 | with `this` undefined, a view that shows anything shows the title `"Plantilla Home"` |
| Plantilla.HomeUnboundFails | front-end/static-files/js/ms-plantilla.js:45 | called as the page calls it, the home view throws exactly when the answer is not an object defining `mensaje`, and otherwise shows what `MostrarHome` shows |
| Plantilla.HomeUnboundEmpty | front-end/static-files/js/ms-plantilla.js:61 | for the answer `{}` the bound view shows the sentinel's message but the unbound one throws |
| Plantilla.MostrarAcercaDeUnbound | front-end/static-files/js/ms-plantilla.js:69-93 | with `this` undefined, a view that shows anything shows the title `"Plantilla Acerca de"` |
| Plantilla.AcercaDeUnboundFails | front-end/static-files/js/ms-plantilla.js:45 | called as the page calls it, the about view throws exactly when the answer lacks one of its four fields, and otherwise shows what `MostrarAcercaDe` shows |
| Plantilla.AcercaDeUnboundNoDate | front-end/static-files/js/ms-plantilla.js:77-81 | for an answer without `fecha` the bound view shows the sentinel but the unbound one throws |

## Left out

- `descargarRuta`, `recupera`, `procesarHome`, `procesarAcercaDe` and `listar` (`ms-plantilla.js:27-47`, 98-135) are left out. They are asynchronous `fetch` calls with `alert`/`console.error` on failure, which is network I/O.
- `Frontend.Article.actualizar` is a DOM write in another module. It is modelled by returning its two arguments.
- Plantilla.MostrarHome, Plantilla.MostrarAcercaDe: these take `this` to be `Plantilla`, as when the views are called as methods. The page itself does not call them that way.
  - `procesarHome` and `procesarAcercaDe` (`ms-plantilla.js:98-107`) pass the views unbound, and `descargarRuta` calls them as plain functions (line 45).
  - Under `"use strict"` (line 8), `this` is then `undefined`, so every fallback branch (lines 55, 58, 61 and 71, 74, 81) throws a `TypeError` instead of showing the sentinel.
  - `Plantilla.MostrarHomeUnbound` and `Plantilla.MostrarAcercaDeUnbound` model that behaviour; see "## Findings".
- JsValues.IntToString: numbers are unbounded integers written in exact decimal. A JSON number is a double, so this holds only for safe integers. Integers above 2^53 are rounded, and magnitudes of 1e21 or more print in exponent form (`"1e+21"`). These cases, and the formatting of fractional numbers, are left out because they are floating point. Days, months, years and victory counts lie far below those bounds.
- Numbers are integral. So `peso`, `altura` and `peso_espada` are taken as already-rendered strings, and `dia`, `mes`, `año` and `victorias` as integers.
- Arrays, functions and other JavaScript values are not among the modelled JSON values.
- Plantilla.TagValueSpelled: property access (`JsValues.Field`, `Plantilla.TagValue`) reads own properties only, and the prototype chain is left out. In JavaScript, `plantillaTags.toString` is an inherited function, not `undefined`. The module reads only the table's own keys and `ID`, and the answers' own fields, where the two agree.
- `String.prototype.replace` gives `$&`, `$1` and `$$` special meanings in a replacement string. The model leaves these out.
- Plantilla.SustituyeTags, Plantilla.Actualiza, Plantilla.RowTexts, Plantilla.Listado and Plantilla.Imprime therefore require that a record's texts hold no `$` (`NoDollar`). The birth date, the `federado` flag and the victory count never hold one; the Olympic-years text can, when an element is a string with a `$`, so `NoDollar` also covers that text.
- Plantilla.ActualizaFill, Plantilla.ActualizaShowsFields, Plantilla.ActualizaStable and Plantilla.ListadoShowsName assume the record's texts contain no token (`TagFree`). The module relies on this without checking it.
  - Without it, a value holding a later token would itself be rewritten.
  - `SustituyeTags` is still modelled for every record.
- `id` (`ref["@ref"].id`) is kept in the record because a fetched person carries it. The code never renders it, since the table has no `ID` token.
- The accompanying Jasmine test file is not modelled. It reads the page and busy-waits. Several of its tests also concern functions or templates that differ from or are absent in `ms-plantilla.js`.

## Findings

| source | as written | input that shows it | evidently intended | confidence | as-written member | corrected member |
|---|---|---|---|---|---|---|
| front-end/static-files/js/ms-plantilla.js:45, 53-64, 98-100 | `procesarHome` passes `this.mostrarHome` unbound. `descargarRuta` calls it as a plain function, so in strict mode `this` is `undefined`. The fallback `this.datosDescargadosNulos` at lines 55, 58 or 61 then throws a `TypeError`. | the answer `{}` on the Home route | the sentinel's message is shown, as when the view is called as `Plantilla.mostrarHome({})` | not executed | Plantilla.HomeUnboundEmpty | Plantilla.MostrarHome |
| front-end/static-files/js/ms-plantilla.js:45, 69-93, 105-107 | `procesarAcercaDe` passes `this.mostrarAcercaDe` unbound, with the same effect on the fallback at lines 71, 74 and 81. | an answer with `mensaje`, `autor` and `email` but no `fecha` | the about page over the sentinel is shown | not executed | Plantilla.AcercaDeUnboundNoDate | Plantilla.MostrarAcercaDe |
