/** The product dialog (script.js:101-193): the text each slot shows for a
    key, the image taken from the product card, and the dialog's open and
    closed state. */
module Modal {
  import opened Wrappers
  import opened Sheets

  /** Shown when a record has no description ("information unavailable"). */
  const Unavailable := "Інформація недоступна"

  /** Shown when a record has no value for another field. */
  const Dash := "—"

  /** `productsData[key]`, or `null` when the table has no such key. */
  function Lookup(table: Table, key: string): (rec: Option<Record>)
    ensures rec.Some? <==> key in table
    ensures rec.Some? ==> rec.value == table[key]
  {
    if key in table then Some(table[key]) else None
  }

  /** `data.field` read as JavaScript truthiness sees it: a missing record,
      a missing field and an empty value are all `''`. */
  function FieldValue(rec: Option<Record>, field: string): string {
    if rec.Some? && field in rec.value then rec.value[field] else ""
  }

  /** The field when it is truthy, that is non-empty, and the fallback
      otherwise. */
  function FieldText(rec: Option<Record>, field: string, fallback: string): string {
    var v := FieldValue(rec, field);
    if v != "" then v else fallback
  }

  /** The price slot: price followed by `" " + currency` when the currency
      is non-empty, the price alone when only it is non-empty, or the dash
      when both are empty. */
  function PriceText(rec: Option<Record>): (p: string)
    ensures FieldValue(rec, "currency") != "" ==>
      p == FieldValue(rec, "price") + " " + FieldValue(rec, "currency")
    ensures FieldValue(rec, "currency") == "" && FieldValue(rec, "price") != "" ==>
      p == FieldValue(rec, "price")
    ensures FieldValue(rec, "currency") == "" && FieldValue(rec, "price") == "" ==> p == Dash
  {
    var price := FieldValue(rec, "price");
    var currency := FieldValue(rec, "currency");
    if price != "" || currency != "" then
      price + (if currency != "" then " " + currency else "")
    else Dash
  }

  /** The image of a product card, when it has one. */
  datatype CardImage = CardImage(src: string, alt: string)

  /** A `.product-card` element: its `data-key` and its first `img`. */
  datatype Card = Card(key: string, img: Option<CardImage>)

  /** The dialog's image slot. */
  datatype Image = Image(src: string, alt: string, visible: bool)

  /** The first card whose key is `key` (`Array.prototype.find`). */
  function FindCard(cards: seq<Card>, key: string): (c: Option<Card>)
    ensures c.None? <==> forall j :: 0 <= j < |cards| ==> cards[j].key != key
    ensures c.Some? ==> c.value.key == key
    ensures c.Some? ==> exists j :: 0 <= j < |cards| && cards[j] == c.value &&
                                    forall m :: 0 <= m < j ==> cards[m].key != key
  {
    if cards == [] then None
    else if cards[0].key == key then Some(cards[0])
    else
      var c := FindCard(cards[1..], key);
      assert forall m :: 1 <= m < |cards| ==> cards[m] == cards[1..][m - 1];
      c
  }

  /** The image slot: the card's image (its alt text falling back to the
      key), or a hidden empty image when there is no card or no image. */
  function ImageFor(cards: seq<Card>, key: string): (img: Image)
    ensures (forall j :: 0 <= j < |cards| ==> cards[j].key != key) ==> img == Image("", "", false)
    ensures !img.visible ==> img == Image("", "", false)
  {
    match FindCard(cards, key)
    case Some(Card(_, Some(img))) =>
      Image(img.src, if img.alt != "" then img.alt else key, true)
    case _ => Image("", "", false)
  }

  /** The text and image slots of the dialog. */
  datatype View = View(image: Image, title: string, description: string, price: string,
                       unit: string, availability: string, sku: string)

  /** What `openModalForKey(key)` writes into the slots: the title is the
      key, and each other text slot shows its own field of the key's record
      when that field is non-empty and its own placeholder otherwise, slot by
      slot; a key missing from the table shows every placeholder. */
  function Render(table: Table, cards: seq<Card>, key: string): (v: View)
    ensures v.title == key
    ensures v.image == ImageFor(cards, key)
    ensures v.description ==
      (if key in table && "description" in table[key] && table[key]["description"] != ""
       then table[key]["description"] else Unavailable)
    ensures v.unit ==
      (if key in table && "unit" in table[key] && table[key]["unit"] != ""
       then table[key]["unit"] else Dash)
    ensures v.availability ==
      (if key in table && "availability" in table[key] && table[key]["availability"] != ""
       then table[key]["availability"] else Dash)
    ensures v.sku ==
      (if key in table && "sku" in table[key] && table[key]["sku"] != ""
       then table[key]["sku"] else Dash)
    ensures v.price == (if key in table then PriceText(Some(table[key])) else Dash)
  {
    var rec := Lookup(table, key);
    View(ImageFor(cards, key), key,
         FieldText(rec, "description", Unavailable),
         PriceText(rec),
         FieldText(rec, "unit", Dash),
         FieldText(rec, "availability", Dash),
         FieldText(rec, "sku", Dash))
  }

  /** The price slot is the dash exactly when the record is missing or has
      neither price nor currency, or when its price is itself the dash and it
      has no currency. */
  lemma PriceDash(rec: Option<Record>)
    ensures PriceText(rec) == Dash <==>
      (FieldValue(rec, "price") == "" && FieldValue(rec, "currency") == "") ||
      (FieldValue(rec, "price") == Dash && FieldValue(rec, "currency") == "")
  {
    var price := FieldValue(rec, "price");
    var currency := FieldValue(rec, "currency");
    if currency != "" {
      assert |price + " " + currency| >= 2;
    }
  }

  /** With a price and a currency the slot shows both, separated by a space;
      with only a currency it shows a space and the currency. */
  lemma PriceWithCurrency(table: Table, cards: seq<Card>, key: string)
    requires key in table && "currency" in table[key] && table[key]["currency"] != ""
    ensures Render(table, cards, key).price == FieldValue(Some(table[key]), "price") + " " + table[key]["currency"]
  {
  }

  lemma PriceExamples(cards: seq<Card>)
    ensures Render(map["Apple" := map["price" := "1.50", "currency" := "USD"]], cards, "Apple").price == "1.50 USD"
    ensures Render(map["Apple" := map["name" := "Apple"]], cards, "Apple").price == Dash
  {
    var rec := map["price" := "1.50", "currency" := "USD"];
    assert FieldValue(Some(rec), "price") == "1.50";
    assert FieldValue(Some(rec), "currency") == "USD";
    var other := map["name" := "Apple"];
    assert "price" !in other && "currency" !in other;
  }

  /** When the load failed the table is empty, and the dialog still opens
      with the key as title and every other text slot at its placeholder. */
  lemma EmptyTableRender(cards: seq<Card>, key: string)
    ensures Render(map[], cards, key) == View(ImageFor(cards, key), key, Unavailable, Dash, Dash, Dash, Dash)
  {
  }

  /** The image slot copies the image of the first card with the key, its
      alt text falling back to the key when empty, and is hidden and blank
      when that card has no image. */
  lemma ImageFromFirstCard(cards: seq<Card>, key: string, j: nat)
    requires j < |cards| && cards[j].key == key
    requires forall m :: 0 <= m < j ==> cards[m].key != key
    ensures ImageFor(cards, key).visible <==> cards[j].img.Some?
    ensures cards[j].img.None? ==> ImageFor(cards, key) == Image("", "", false)
    ensures cards[j].img.Some? ==>
      var img := cards[j].img.value;
      ImageFor(cards, key) == Image(img.src, if img.alt != "" then img.alt else key, true)
  {
    var c := FindCard(cards, key);
    var i :| 0 <= i < |cards| && cards[i] == c.value && forall m :: 0 <= m < i ==> cards[m].key != key;
    assert i == j;
  }

  /** An element that can hold the focus. */
  datatype Element = CloseButton | Other(id: nat)

  /** The dialog element, its slots, and the page state opening it changes:
      the `show` class, `aria-hidden`, the overflow of the root and body
      elements, the element focused before opening, and the focus itself. */
  class Dialog {
    var show: bool
    var ariaHidden: bool
    var overflowHidden: bool
    var lastFocus: Option<Element>
    var focus: Option<Element>
    var view: View

    /** The dialog as the page declares it: hidden, nothing remembered. */
    constructor (focus: Option<Element>)
      ensures !show && ariaHidden && !overflowHidden
      ensures lastFocus == None && this.focus == focus
      ensures view == View(Image("", "", false), "", "", "", "", "", "")
    {
      show := false;
      ariaHidden := true;
      overflowHidden := false;
      lastFocus := None;
      this.focus := focus;
      view := View(Image("", "", false), "", "", "", "", "", "");
    }

    /** `openModalForKey`: fill the slots, show the dialog, block page
        scroll, remember the focused element and focus the close button. */
    method Open(table: Table, cards: seq<Card>, key: string)
      modifies this
      ensures view == Render(table, cards, key)
      ensures show && !ariaHidden && overflowHidden
      ensures lastFocus == old(focus) && focus == Some(CloseButton)
    {
      view := Render(table, cards, key);
      show := true;
      ariaHidden := false;
      lastFocus := focus;
      focus := Some(CloseButton);
      overflowHidden := true;
    }

    /** `closeModal`, also what a click on the close button does: hide the
        dialog, restore page scroll and give the focus back to the
        remembered element, if any. The slots and the remembered element
        are left as they are. */
    method Close()
      modifies this
      ensures !show && ariaHidden && !overflowHidden
      ensures focus == (if old(lastFocus).Some? then old(lastFocus) else old(focus))
      ensures lastFocus == old(lastFocus) && view == old(view)
    {
      show := false;
      ariaHidden := true;
      overflowHidden := false;
      if lastFocus.Some? {
        focus := lastFocus;
      }
    }

    /** The document's keydown handler: Escape closes the dialog, but only
        while it is shown. */
    method KeyDown(keyName: string)
      modifies this
      ensures keyName == "Escape" && old(show) ==>
        !show && ariaHidden && !overflowHidden &&
        focus == (if old(lastFocus).Some? then old(lastFocus) else old(focus))
      ensures !(keyName == "Escape" && old(show)) ==>
        show == old(show) && ariaHidden == old(ariaHidden) &&
        overflowHidden == old(overflowHidden) && focus == old(focus)
      ensures lastFocus == old(lastFocus) && view == old(view)
    {
      if keyName == "Escape" && show {
        Close();
      }
    }

    /** The dialog element's own click handler: a click whose target is the
        backdrop (the dialog element itself) closes it; a click inside the
        content changes nothing here. The close button, inside the content,
        closes through its own handler, `Close`. */
    method Click(onBackdrop: bool)
      modifies this
      ensures onBackdrop ==>
        !show && ariaHidden && !overflowHidden &&
        focus == (if old(lastFocus).Some? then old(lastFocus) else old(focus))
      ensures !onBackdrop ==>
        show == old(show) && ariaHidden == old(ariaHidden) &&
        overflowHidden == old(overflowHidden) && focus == old(focus)
      ensures lastFocus == old(lastFocus) && view == old(view)
    {
      if onBackdrop {
        Close();
      }
    }
  }

  /** Opening the dialog from a focused card and pressing Escape closes it
      and gives the focus back to that card. */
  method EscapeRestoresFocus(table: Table, cards: seq<Card>, key: string, card: nat)
    returns (shown: bool, focused: Option<Element>)
    ensures !shown && focused == Some(Other(card))
  {
    var d := new Dialog(Some(Other(card)));
    d.Open(table, cards, key);
    assert d.show && d.focus == Some(CloseButton);
    d.KeyDown("Escape");
    shown, focused := d.show, d.focus;
  }
}
