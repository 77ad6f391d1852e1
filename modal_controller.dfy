/**
  * The image/recipe modal of script.js: the product-card handlers that open
  * it, the close button, backdrop and Escape handlers that close it, and
  * what the copy and share buttons hand to the clipboard and to the Web
  * Share API. The DOM nodes the handlers write are fields of RecipeModal.
  */
module ModalController {
  import opened Wrappers
  import opened JsString
  import opened RecipeHtml

  /** An element of the page as a bare token: what `document.activeElement`
      returns and `focus()` is called on. */
  datatype ElementRef = ElementRef(id: nat)

  /** What `JSON.parse` makes of a recipe script; either field may be absent. */
  datatype RecipeRecord = RecipeRecord(title: Option<string>, recipe: Option<string>)

  /** A `.product-card`: the `src` of its `img` (absent when it has none), the
      text of its `.product-name` (absent when it has none) and its
      `data-recipe-id`. */
  datatype ProductCard = ProductCard(imgSrc: Option<string>, nameText: Option<string>, recipeId: string)

  /** What the copy button does: show the "empty recipe" notice, or write
      the text to the clipboard. */
  datatype CopyOutcome = EmptyNotice | WriteClipboard(text: string)

  const DefaultAlt: string := "Imagem do produto"

  /** `getRecipeById`. `scripts` maps the id of each script element of the
      page to what parsing its text gives (None when parsing throws or the
      result is null). */
  function GetRecipeById(id: string, scripts: map<string, Option<RecipeRecord>>): (r: Option<RecipeRecord>)
    ensures id == [] ==> r == None
    ensures r.Some? ==> "recipe-" + id in scripts && scripts["recipe-" + id] == r
    ensures id != [] && "recipe-" + id in scripts ==> r == scripts["recipe-" + id]
  {
    if id == [] then None
    else if "recipe-" + id in scripts then scripts["recipe-" + id]
    else None
  }

  /** The card's own name, trimmed; empty when the card has no name element. */
  function CardName(card: ProductCard): (name: string)
    ensures IsTrimmed(name)
    ensures card.nameText.None? ==> name == []
    ensures card.nameText.Some? ==> exists k :: SplitsAt(card.nameText.value, name, k)
  {
    if card.nameText.Some? then
      TrimSplits(card.nameText.value);
      Trim(card.nameText.value)
    else []
  }

  /** The record's title when it has a non-empty one, else the card's name. */
  function DisplayTitle(cardName: string, record: Option<RecipeRecord>): (t: string)
    ensures t != cardName ==> record.Some? && record.value.title == Some(t) && t != []
    ensures t == [] ==> cardName == []
    ensures record.None? || record.value.title.None? ==> t == cardName
    ensures record.Some? && record.value.title.Some? && record.value.title.value != [] ==> t == record.value.title.value
  {
    if record.Some? && record.value.title.Some? && record.value.title.value != [] then record.value.title.value
    else cardName
  }

  /** The record's recipe text; none when there is no record. */
  function RecipeTextOf(record: Option<RecipeRecord>): (text: Option<string>)
    ensures record.None? ==> text.None?
    ensures text.Some? ==> record.Some? && record.value.recipe == text
    ensures record.Some? ==> text == record.value.recipe
  {
    if record.Some? then record.value.recipe else None
  }

  /** The share payload: the title alone when there is no plain text,
      otherwise the title, a blank line, and the text. */
  function SharePayload(title: string, plain: string): (payload: string)
    ensures title <= payload
    ensures |payload| == |title| <==> plain == []
    ensures plain != [] ==> |payload| == |title| + 2 + |plain|
    ensures plain != [] ==> payload[|title|..|title| + 2] == "\n\n" && payload[|title| + 2..] == plain
  {
    if plain != [] then title + "\n\n" + plain else title
  }

  /** Sharing a modal that shows rendered recipe text shares the title and
      the recipe text itself, line breaks normalised and ends trimmed. */
  lemma ShareOfRenderedRecipe(title: string, text: string)
    ensures var plain := Trim(NormalizeNewlines(CrlfToLf(text)));
      SharePayload(title, StripHtmlToText(RenderRecipeTextAsHtml(text)))
      == if plain == [] then title else title + "\n\n" + plain
  {
    RoundTrip(text);
  }

  /** Sharing a modal that shows the placeholder shares the placeholder's
      message after the title. */
  lemma ShareOfPlaceholder(title: string)
    ensures SharePayload(title, StripHtmlToText(Placeholder)) == title + "\n\n" + PlaceholderMessage
  {
    PlaceholderStrips();
  }

  class RecipeModal {
    var hidden: bool                    // aria-hidden of #image-modal is "true"
    var imgSrc: string                  // modalImg.src
    var imgAlt: string                  // modalImg.alt
    var title: string                   // modalTitle.textContent
    var recipeHtml: string              // modalRecipe.innerHTML
    var lastFocused: Option<ElementRef> // lastFocusedElement

    /** The state closeModal leaves behind (the image's alt text aside). */
    ghost predicate Cleared()
      reads this
    {
      hidden && imgSrc == [] && title == [] && recipeHtml == [] && lastFocused == None
    }

    /** The page starts with the modal hidden and empty. */
    constructor ()
      ensures Cleared() && imgAlt == []
    {
      hidden, imgSrc, imgAlt, title, recipeHtml, lastFocused := true, [], [], [], [], None;
    }

    /** `openModal`: remembers the focused element, fills the image, title
        and recipe (the placeholder when there is no recipe text) and shows
        the modal. */
    method Open(src: string, t: string, recipeText: Option<string>, active: Option<ElementRef>)
      modifies this
      ensures Shows(src, t, recipeText, active)
    {
      lastFocused := active;
      imgSrc := src;
      imgAlt := if t != [] then t else DefaultAlt;
      title := t;
      recipeHtml := if recipeText.Some? && recipeText.value != [] then RenderRecipeTextAsHtml(recipeText.value) else Placeholder;
      hidden := false;
    }

    /** `closeModal`: hides the modal, clears image, title and recipe, and
        hands back the remembered element (to be focused) exactly once. */
    method Close() returns (restored: Option<ElementRef>)
      modifies this
      ensures Cleared() && imgAlt == old(imgAlt)
      ensures restored == old(lastFocused)
    {
      hidden := true;
      imgSrc := [];
      title := [];
      recipeHtml := [];
      restored := None;
      if lastFocused.Some? {
        restored := lastFocused;
        lastFocused := None;
      }
    }

    /** The document's keydown handler: Escape closes the modal only while
        it is shown. */
    method KeyDown(key: string) returns (restored: Option<ElementRef>)
      modifies this
      ensures key == "Escape" && !old(hidden) ==> Cleared() && imgAlt == old(imgAlt) && restored == old(lastFocused)
      ensures !(key == "Escape" && !old(hidden)) ==> unchanged(this) && restored == None
    {
      restored := None;
      if key == "Escape" && !hidden {
        restored := Close();
      }
    }

    /** A click inside the modal closes it when its target is the modal
        element itself (the backdrop), shown or not. */
    method ClickModal(onBackdrop: bool) returns (restored: Option<ElementRef>)
      modifies this
      ensures onBackdrop ==> Cleared() && imgAlt == old(imgAlt) && restored == old(lastFocused)
      ensures !onBackdrop ==> unchanged(this) && restored == None
    {
      restored := None;
      if onBackdrop {
        restored := Close();
      }
    }

    /** The state Open leaves for the given arguments. */
    ghost predicate Shows(src: string, t: string, recipeText: Option<string>, active: Option<ElementRef>)
      reads this
    {
      !hidden && lastFocused == active && imgSrc == src && title == t &&
      imgAlt == (if t == [] then DefaultAlt else t) &&
      recipeHtml == if recipeText.Some? && recipeText.value != [] then RenderRecipeTextAsHtml(recipeText.value) else Placeholder
    }

    /** The state clicking the image of `card` leaves. */
    ghost predicate ShowsCard(card: ProductCard, scripts: map<string, Option<RecipeRecord>>, active: Option<ElementRef>)
      requires card.imgSrc.Some?
      reads this
    {
      var record := GetRecipeById(card.recipeId, scripts);
      Shows(card.imgSrc.value, DisplayTitle(CardName(card), record), RecipeTextOf(record), active)
    }

    /** The click handler of a card's image: looks the recipe up and opens
        the modal with the record's title (or the card's name) and text. */
    method ClickProductImage(card: ProductCard, scripts: map<string, Option<RecipeRecord>>, active: Option<ElementRef>)
      requires card.imgSrc.Some?
      modifies this
      ensures ShowsCard(card, scripts, active)
    {
      var record := GetRecipeById(card.recipeId, scripts);
      Open(card.imgSrc.value, DisplayTitle(CardName(card), record), RecipeTextOf(record), active);
    }

    /** Enter or Space on a card clicks its image, if it has one; other
        keys change nothing. */
    method CardKeyDown(card: ProductCard, key: string, scripts: map<string, Option<RecipeRecord>>, active: Option<ElementRef>)
      modifies this
      ensures (key == "Enter" || key == " ") && card.imgSrc.Some? ==> ShowsCard(card, scripts, active)
      ensures !((key == "Enter" || key == " ") && card.imgSrc.Some?) ==> unchanged(this)
    {
      if (key == "Enter" || key == " ") && card.imgSrc.Some? {
        ClickProductImage(card, scripts, active);
      }
    }

    /** The copy button: nothing is written to the clipboard when the
        stripped recipe is empty; otherwise exactly the stripped text is. */
    method Copy() returns (outcome: CopyOutcome)
      ensures outcome == EmptyNotice <==> StripHtmlToText(recipeHtml) == []
      ensures outcome.WriteClipboard? ==> outcome.text == StripHtmlToText(recipeHtml)
    {
      var plain := StripHtmlToText(recipeHtml);
      if plain == [] {
        return EmptyNotice;
      }
      outcome := WriteClipboard(plain);
    }

    /** The share button's payload, built from the displayed title and the
        stripped recipe. */
    method Share() returns (payload: string)
      ensures payload == SharePayload(title, StripHtmlToText(recipeHtml))
    {
      var plain := StripHtmlToText(recipeHtml);
      payload := SharePayload(title, plain);
    }
  }

  /** A session with the modal: a product without recipe text, copied, then
      closed twice and sent Escape while hidden. */
  method ModalSession(focused: ElementRef, src: string)
  {
    var m := new RecipeModal();
    m.Open(src, "Bolo", None, Some(focused));
    assert m.recipeHtml == Placeholder && !m.hidden;
    var copied := m.Copy();
    PlaceholderStrips();
    assert copied == WriteClipboard(PlaceholderMessage);
    var r1 := m.Close();
    assert r1 == Some(focused);
    var r2 := m.Close();
    assert r2 == None && m.Cleared();
    var r3 := m.KeyDown("Escape");
    assert r3 == None && m.Cleared();
  }
}
