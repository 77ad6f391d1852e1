# Recipe modal and navigation of a bakery product page, in Dafny

This project models the client-side behaviour in `script.js` of a small
product catalogue site (a bakery's product page):

- **Recipe rendering and stripping** (module `RecipeHtml`, on top of
  `JsString` and `RegexReplace`). Each product can have a recipe. The recipe
  is plain text with line feeds. `renderRecipeTextAsHtml` escapes `&`, `<`
  and `>`, normalises CRLF and turns each line feed into `<br>`.
  `stripHtmlToText` turns the shown markup back into plain text for the
  copy and share buttons.
  - `RegexReplace.ReplaceAll` models every global `String.replace` call of
    the source. It is one left-to-right scanner, parameterised by the
    pattern (`/&/g`, `/</g`, `/>/g`, `/\r\n/g`, `/\n/g`, `/<br\s*\/?>/gi`,
    `/<\/p>/gi`, `/<\/?[^>]+(>|$)/g`, `/&nbsp;/g`).
  - `JsString.Trim` is `String.prototype.trim` with its whitespace set.
  - The textarea that `stripHtmlToText` uses is modelled as the HTML
    parser's newline normalisation followed by decoding of the three
    entities that escaping produces.
  - The central theorem, `RecipeHtml.RoundTrip`, says what stripping the
    rendered recipe gives back. Rendering turns each CRLF pair into LF.
    The textarea then turns each CRLF pair of that result into LF, and
    every CR left over into LF. The result is trimmed. So CRLF normalisation
    runs twice: `a\r\r\nb` comes back as `a\nb`, not `a\n\nb`. For
    recipes without carriage returns, the result is exactly `text.trim()`.
- **The image/recipe modal** (module `ModalController`, class
  `RecipeModal`). It covers:
  - opening from a product card, by click or by Enter/Space, with the
    recipe found by `getRecipeById`;
  - closing by the close button, the backdrop or Escape, which restores
    focus to the element that had it;
  - what the copy button copies (or the "empty recipe" notice it shows);
  - the text the share button hands to the Web Share API.
- **The hamburger menu** (module `Navigation`, class `NavMenu`):
  - the toggle, which keeps `aria-expanded` in step with the navigation;
  - closing on a nav-link click;
  - the in-page anchor handler.

What `script.js` does, in brief:
- Rendering adds no markup besides `<br>` and the three entities: an
  example three-line recipe renders as its lines joined by `<br>`
  (`RecipeHtml.ExampleRecipeRendering`).
- Focus is kept inside the open modal by one capture-phase focus listener.

Two behaviours of the code as written are worth knowing:
- When a product has no recipe, the modal shows the placeholder
  `<em>Receita não disponível para este item.</em>`. That markup strips to
  its message (`RecipeHtml.PlaceholderStrips`). So the copy button copies
  the message instead of showing the "Receita vazia." notice, and the share
  text is the title, a blank line and the message
  (`ModalController.ShareOfPlaceholder`).
- The in-page anchor handler closes only the navigation's `open` class. The
  button's `open` class and `aria-expanded` stay as they were
  (`Navigation.NavMenu.AnchorClick`, its last ensures). For a link inside
  the navigation this does no harm: its nav-link handler was registered
  first, runs first and closes the menu in full
  (`Navigation.NavMenu.NavAnchorClick`). An in-page link outside the
  navigation, clicked while the menu is open, leaves the menu out of step.

## Model

| member | source | states |
|---|---|---|
| JsString.TrimStart | script.js:243 | the result is a suffix of the input, everything dropped is whitespace, and the result is empty or starts with a non-whitespace character |
| JsString.TrimEnd | script.js:243 | the result is a prefix of the input, everything dropped is whitespace, and the result is empty or ends with a non-whitespace character |
| JsString.Trim | script.js:243 | the result has no whitespace at either end and is no longer than the input |
| JsString.TrimSplits | script.js:243 | the result is a slice of the input with only whitespace before it and only whitespace after it |
| JsString.TrimOfTrimmed | script.js:243 | trimming text without whitespace at its ends changes nothing |
| JsString.TrimUnique | script.js:243 | trimming whitespace + core + whitespace, where the core is trimmed, gives exactly the core |
| RegexReplace.MatchLen | script.js:235-240 | the length of the pattern's match at the start of the input never exceeds the input, and every non-empty match starts with the pattern's lead character |
| RegexReplace.ReplaceAll | script.js:79-81 | a global replace leaves a string without the pattern's lead character unchanged, and a non-empty string stays non-empty under a non-empty replacement |
| RegexReplace.ReplaceAllPlainPrefix | script.js:79-81 | replacing in x + y, where x has no lead character, gives x followed by the replacement over y |
| RegexReplace.ReplaceCharConcat | script.js:79-81 | replacing one character distributes over concatenation |
| RegexReplace.ReplaceCharAbsent | script.js:79-81 | replacing a character by text without `d` leaves no `d` when `d` is that character or was absent |
| RegexReplace.BrVariantReplaced | script.js:235 | `<br>`, `<BR >`, `<br/>` and every other case and spacing variant at the front is replaced as one match, and scanning resumes after it |
| RegexReplace.BrTagMatchIsVariant | script.js:235 | conversely, every match of the line-break pattern is `<`, `b`/`B`, `r`/`R`, white space, an optional `/` and `>` |
| RegexReplace.MatchLenBeforeGt | script.js:235-236 | text after a `>` cannot change whether or how far the line-break pattern or `</p>` matches |
| RegexReplace.ClosingPReplaced | script.js:236 | `</p>` and `</P>` at the front are replaced as one match |
| RegexReplace.TagRemoved | script.js:238 | a tag is removed up to its first `>`, and an unclosed tag is removed to the end of the input |
| RegexReplace.NoTagLeft | script.js:238 | after tag removal no `<` is followed by a character other than `>` |
| RecipeHtml.EscapeHtml | script.js:79 | the escaped text has no `<` and no `>`, and text without `&`, `<` and `>` is unchanged |
| RecipeHtml.CrlfToLf | script.js:81 | text without CR is unchanged, and the number of line feeds is kept: each CRLF pair gives exactly one |
| RecipeHtml.BreakLines | script.js:81 | no line feed is left, and text without line feeds is unchanged |
| RecipeHtml.EscapeChars | script.js:78-79 | escaped text contains no `<` and no `>`, and is at least as long as the input |
| RecipeHtml.EscapeHtmlChar | script.js:79 | on a single character the chain of three replaces yields that character's entity, or the character itself |
| RecipeHtml.EscapeHtmlConcat | script.js:79 | the chain of three replaces distributes over concatenation |
| RecipeHtml.EscapeHtmlIsPerChar | script.js:79 | the chain of three replaces (`&` first) equals escaping each character on its own |
| RecipeHtml.CrlfCommutesWithEscape | script.js:79-81 | CRLF normalisation after escaping equals escaping after CRLF normalisation |
| RecipeHtml.RenderRecipeTextAsHtml | script.js:76-83 | the markup is empty exactly when the recipe text is empty |
| RecipeHtml.RenderIsPerChar | script.js:76-83 | rendering non-empty text is: normalise CRLF, escape each character, then turn line feeds into `<br>` |
| RecipeHtml.RenderMarkupSafe | script.js:76-83 | in the rendered markup every `<` starts a `<br>`, every `>` ends one, every `&` starts an entity, and no line feed is left |
| RecipeHtml.RenderBrCount | script.js:81 | the rendered markup has one `<br>` per line feed of the CRLF-normalised text |
| RecipeHtml.NormalizeNewlines | script.js:241-242 | no CR is left, and text without CR is unchanged |
| RecipeHtml.TextareaValue | script.js:241-242 | the textarea's value has no CR, and text without `&` and CR is its own value |
| RecipeHtml.DecodeEntities | script.js:241-242 | text without `&` decodes to itself |
| RecipeHtml.DecodeInvertsEscape | script.js:241-242 | decoding the escaped text gives back the text |
| RecipeHtml.DecodeIsSinglePass | script.js:241-242 | `&amp;lt;` decodes to `&lt;`, not `<` |
| RecipeHtml.NormalizeCommutesWithEscape | script.js:241-242 | the textarea's newline normalisation commutes with escaping |
| RecipeHtml.NbspAbsentFromEscaped | script.js:240 | escaped text contains no `&nbsp;`, so that step leaves it unchanged |
| RecipeHtml.BrTagsUndoBreakLines | script.js:235 | turning `<br>` back into line feeds undoes BreakLines on text without `<` |
| RecipeHtml.StripHtmlToText | script.js:232-244 | empty markup strips to the empty string, and every result is trimmed |
| RecipeHtml.RoundTrip | script.js:232-244 | stripping the rendered recipe gives the recipe with CRLF pairs turned into LF, then the CRLF pairs of that result turned into LF, then every remaining CR turned into LF, trimmed |
| RecipeHtml.RoundTripWithoutCr | script.js:232-244 | for recipe text without CR, stripping the rendered recipe gives exactly its trimmed text |
| RecipeHtml.StripTailOfPlain | script.js:236-243 | on plain text the steps after `<br>` replacement only trim |
| RecipeHtml.StripBrVariant | script.js:235 | any spelling of the line-break tag between two plain texts strips to one line feed |
| RecipeHtml.StripNbsp | script.js:240 | `&nbsp;` between two plain texts strips to one space |
| RecipeHtml.StripClosingP | script.js:236 | a `</p>` between two plain texts strips to one line feed |
| RecipeHtml.StripDropsOtherTag | script.js:235-238 | a tag between two plain texts is dropped without a trace whenever neither the line-break pattern nor `</p>` matches anywhere inside it (`<b>`, `<blockquote>`, `<em>`, `<a<b>`, ...) |
| RecipeHtml.PlainTagBody | script.js:235-236 | a tag whose body has no `<` or `>`, does not start with `b` or `B` and is not `/p` or `/P` is such a tag |
| RecipeHtml.TagHidingBreak | script.js:235-238 | a tag whose body hides a `<br>` is not dropped by itself: the `<br>` becomes a line feed first, and the unclosed rest of the tag takes all the text after it with it |
| RecipeHtml.StripEmphasis | script.js:238 | trimmed plain text wrapped in `<em>…</em>` strips to the text |
| RecipeHtml.PlaceholderStrips | script.js:91 | the no-recipe placeholder strips to its message, not to the empty string |
| RecipeHtml.RenderOfPlain | script.js:76-83 | recipe text without markup characters or CR renders as itself with `<br>` for each line feed |
| RecipeHtml.RenderThreeLines | script.js:81 | three plain lines render as the lines joined by `<br>` |
| RecipeHtml.ExampleRecipeRendering | script.js:76-83 | an example three-line recipe renders as its lines joined by two `<br>` and nothing else |
| ModalController.GetRecipeById | script.js:63-73 | an empty id finds nothing, a found record is the parse of script `recipe-<id>`, and a present script is always consulted |
| ModalController.CardName | script.js:123 | the card's name is the text of its name element with only whitespace removed at both ends, and has none left there; it is empty when the card has no name element |
| ModalController.DisplayTitle | script.js:126 | a record's non-empty title is the title shown; otherwise the card's name is; so the title is empty only when the card's name is |
| ModalController.RecipeTextOf | script.js:125 | with a record, the recipe text is exactly the record's (absent when the record has none); without a record there is none |
| ModalController.SharePayload | script.js:176 | the payload starts with the title; it is the title alone exactly when the plain text is empty; otherwise the title, a blank line, then the text |
| ModalController.ShareOfRenderedRecipe | script.js:173-176 | sharing a rendered recipe gives the title, and, when the round-tripped text (CRLF normalised twice, remaining CR turned into LF, trimmed) is non-empty, a blank line and that text |
| ModalController.ShareOfPlaceholder | script.js:173-176 | sharing a product without a recipe gives the title, a blank line and the placeholder message |
| ModalController.RecipeModal.constructor | script.js:60 | the modal starts hidden and empty, with no remembered focus |
| ModalController.RecipeModal.Open | script.js:86-97 | the modal is shown with the image, title and alt text (the default alt text for an empty title), the rendered recipe or the placeholder, and the element that had focus is remembered |
| ModalController.RecipeModal.Close | script.js:100-110 | the modal is hidden and cleared (alt text kept), and the remembered element is handed back and forgotten |
| ModalController.RecipeModal.KeyDown | script.js:216-220 | Escape closes the modal only while it is shown; any other key, or Escape while hidden, changes nothing |
| ModalController.RecipeModal.ClickModal | script.js:212-215 | a click whose target is the modal itself closes it; a click inside the panel changes nothing |
| ModalController.RecipeModal.ClickProductImage | script.js:119-128 | the modal opens with the card's image, the record's title (or the trimmed card name) and the record's recipe text |
| ModalController.RecipeModal.CardKeyDown | script.js:131-138 | Enter or Space on a card with an image opens it like a click; other keys, or a card without an image, change nothing |
| ModalController.RecipeModal.Copy | script.js:142-150 | the empty notice is shown exactly when the stripped recipe is empty; otherwise the stripped recipe is what is copied |
| ModalController.RecipeModal.Share | script.js:173-176 | the shared text is the share payload of the shown title and the stripped recipe |
| Navigation.AriaValue | script.js:17 | the attribute reads `"true"` exactly when the menu is open, and `"false"` otherwise |
| Navigation.NavMenu.constructor | script.js:12-13 | the menu starts closed and in step |
| Navigation.NavMenu.Toggle | script.js:14-18 | both classes flip, aria-expanded becomes the navigation's new state, and the three stay in step |
| Navigation.NavMenu.NavLinkClick | script.js:19-28 | an open menu is closed completely, a closed one is left alone, and the three stay in step |
| Navigation.NavMenu.AnchorClick | script.js:31-44 | the handler takes the click over and smooth-scrolls exactly when the fragment is non-empty and names an element; then only the navigation's class is closed, and an open, in-step menu ends out of step |
| Navigation.NavMenu.NavAnchorClick | script.js:20-44 | an in-page link inside the navigation runs the nav-link handler, then the anchor handler: it scrolls as AnchorClick does, the menu ends closed, in step when it was open or in step before, and a menu that was closed keeps its button class and aria-expanded |

## Left out

- Clipboard and Web Share calls (script.js:151-169, 178-208) are promises with fallbacks (`execCommand`, alerts, `setTimeout` label resets). The model stops at the text handed to them: `Copy` returns the text to write and `Share` the text to share.
- Smooth scrolling (script.js:39-41) is layout arithmetic on the live page; `AnchorClick` only reports whether the handler scrolls.
- `Navigation.NavMenu.AnchorClick`: when the handler does not take the click over (`#`, or a fragment no element has as its id), the browser's default fragment navigation runs, and may scroll (to the top for `#`); that navigation is not modelled.
- The footer year (script.js:47-48) reads the clock and is not modelled.
- The capture-phase focus listener (script.js:223-229), the calls to `focus()` (script.js:95, 107) and the page's `overflow` style (script.js:96, 105) are not modelled. Elements are bare tokens; `Close` returns the element that would be focused.
- `JSON.parse` of recipe scripts is a parameter: a map from script id to the parsed record, where None stands for a parse error or `null`.
- `ModalController.GetRecipeById`: a record whose `recipe` is not a string (a number, say) is not modelled; the record's fields are strings or absent.
- `RecipeHtml.TextareaValue`: the textarea decodes only `&amp;`, `&lt;` and `&gt;`. The browser's full named and numeric character-reference table, and references without `;`, are not modelled; the round trip only needs these three. The textarea's parse also turns NUL into U+FFFD, which the model does not capture.
- `ModalController.RecipeModal.Open`: `recipeHtml` holds the string assigned to `innerHTML`, not the browser's parse and reserialisation of it. That parse turns each CRLF pair and each lone CR into LF, and the reserialisation writes U+00A0 back as `&nbsp;` and drops NUL; the model captures none of these. So on the page a recipe `a\r\r\nb` copies as `a\n\nb`, while `Copy` and `RoundTrip` give `a\nb`.
- JavaScript strings are UTF-16 code units; the model's strings are sequences of Unicode scalar values. Lone surrogates are not modelled.
- `ModalController.RecipeModal.constructor`: only `lastFocusedElement = null` comes from script.js:60; the hidden, empty modal with no alt text is the page markup's initial state, which is not part of this model.
- `Navigation.NavMenu.constructor`: the initial state comes from the page markup, which is not part of this model; the model starts from a closed menu.
- The recipe page script `Receita/receita.js` is not part of this model.
