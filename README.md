# Product sheet loader and product dialog, modelled in Dafny

The page script `script.js` downloads a spreadsheet exported as CSV, turns it
into a table of products keyed by name, and shows one product in a dialog when
its card is activated. This project models the three parts of that script that
are data transformation or simple state, and proves what they promise:

- **The CSV tokenizer** `parseCSV` (`csv.dfy`, module `Csv`). `Run` is the
  tokenizer's loop written as a function of the remaining text and the loop
  state (`Scan`), and `Parse` is the whole tokenizer. `ParseCsv` is the loop as
  the source writes it, with an index, `continue` and in-place updates, and it
  is proved equal to `Parse`. The lemmas cover:
  - row shape: no row is empty;
  - round trips both ways for text with no `"` and no `\r` that is empty or
    ends in `\n`, and for tables of non-empty rows whose cells hold no
    separator or quote;
  - a round trip for tables written with every cell quoted the way RFC 4180
    section 2 escapes it, so doubled quotes, commas and line breaks inside
    quotes survive;
  - the equivalence of `\r\n`, `\r` and `\n`;
  - the end-of-input quirks: `a,` gives `[["a"]]`, and a final `,` or line
    break after a non-empty last cell outside quotes adds nothing (after an
    empty cell it does: `a\n\n` gives `[["a"], [""]]`).

  The parse is therefore not always the naive split on `\n` and then `,`:
  that split gives `a,` two cells, the tokenizer one (`TrailingCommaExample`).
- **The table builder** (`sheets.dfy`, module `Sheets`). This covers
  `normalizeHeader` and the synchronous body of `loadSheets`:
  - header normalization;
  - choice of the key column;
  - records padded to the header count, with extra cells ignored;
  - empty keys dropped, and the last row wins for a repeated key.
  `FillTable` is the `forEach` loop and is proved equal to the specification
  `BuildTable`. `Store` holds the page-wide `productsData`, and `Store.Load`
  replaces it on success and leaves it as it was on every failure.
- **The product dialog** (`modal.dfy`, module `Modal`). The text of each slot
  is a function of the key and the record (`Render`). The image comes from the
  first card with the key (`FindCard`, `ImageFor`). `Dialog` is a class whose
  methods open, close and handle Escape and backdrop clicks. They update the
  `show` class, `aria-hidden`, the page overflow, and the focus that is
  remembered and restored.

`text.dfy` (module `Text`) holds JavaScript's `trim()` and `toLowerCase()`.
`wrappers.dfy` holds `Option` and `Result`.

The price slot shows the dash when the record has neither price nor
currency, and also when the price is itself the dash and there is no
currency; `Modal.PriceDash` states exactly this condition.

## Model

| member | source | states |
|---|---|---|
| `Csv.ParseCsv` | script.js:10-52 | The index-based loop returns exactly `Parse(text)`, and every row it returns has at least one cell |
| `Csv.Run` | script.js:16-50 | The loop from a given position and state: the rows already finished are kept unchanged, in front of whatever the rest of the text adds |
| `Csv.Parse` | script.js:10-52 | The rows `parseCSV` returns; none of them is empty, because a row is only pushed after a cell push and the last row only when non-empty |
| `Csv.PlainRoundTrip` | script.js:28-50 | For text with no `"` and no `\r` that is empty or ends in `\n`, joining each row's cells with `,` and adding `\n` gives the input back |
| `Csv.PlainCellsFieldFree` | script.js:28-47 | On text with no `"` and no `\r`, no cell contains `,`, `\n`, `\r` or `"`; with `PlainRoundTrip`, such text that is empty or ends in `\n` parses to the naive split (`a,` does not: it gives `[["a"]]`) |
| `Csv.PlainTableRoundTrip` | script.js:28-50 | A table of non-empty rows whose cells hold no separator or quote, written with `,` and `\n`, parses back to itself |
| `Csv.ReadEscaped` | script.js:18-26 | Inside quotes, each doubled quote adds one literal `"` and the closing quote leaves quoted mode; every other character, comma and line break included, stays in the cell |
| `Csv.ReadQuoted` | script.js:18-28 | A quoted, escaped cell followed by anything but a quote sets the current cell to exactly the unescaped text |
| `Csv.ReadRow` | script.js:18-43 | A line of quoted cells joined by `,` and ended by `\n` adds exactly that row |
| `Csv.QuotedRoundTrip` | script.js:10-52 | Any table of non-empty rows, written with every cell quoted and escaped in the style of section 2 of RFC 4180, parses back to itself |
| `Csv.LineBreaksEquivalent` | script.js:18-43 | Outside quotes, `\r\n`, a bare `\r` and `\n` each end exactly one row: replacing the first two by `\n` wherever they are outside quotes does not change the parse, for any text, quoted cells included |
| `Csv.RunUnifyBreaks` | script.js:18-43 | From any state, with the quote parity tracked from that state, unifying the line breaks of the remaining text does not change the rows |
| `Csv.UnifyBreaksNoCR` | script.js:28-43 | Once unified, quote-free text has no `\r` left, so the unified text uses `\n` alone |
| `Csv.UnifyLeavesQuotedCR` | script.js:18-43 | For any text, quoted cells included, every `\r` left once unified lies inside quotes, counting the quote parity from the starting state: outside quotes only `\n` ends a row |
| `Csv.RunAppend` | script.js:16-50 | Reading `t + u` is reading `t` and then `u` from the state `t` left, when no doubled quote or `\r\n` is split at the cut |
| `Csv.RunIsFinish` | script.js:16-51 | The result is what the end-of-input step makes of the state after the whole text |
| `Csv.TrailingSeparatorAddsNothing` | script.js:28-50 | A final `,`, `\n` or `\r` after any text that ends outside quotes with a non-empty cell adds no empty cell and no row: `Parse(t + [sep]) == Parse(t)` |
| `Csv.EndOfInput` | script.js:49-50 | For any text: the pending cell is kept exactly when it is non-empty or the text ends inside quotes; otherwise it is dropped, and the pending row is kept exactly when it is non-empty |
| `Csv.EscapedQuoteExample` | script.js:18-26 | `"say ""hi"""` parses to the single cell `say "hi"` |
| `Csv.QuotedCommaExample` | script.js:18-36 | `a,"b,c",d` parses to the three cells `a`, `b,c`, `d` |
| `Csv.TrailingCommaExample` | script.js:30-50 | `a,` at the end of input yields `[["a"]]` |
| `Csv.QuoteAtEndExamples` | script.js:24-50 | An unclosed `"` yields one empty cell; a closed empty `""` yields no row at all |
| `Text.Trim` | script.js:80 | The result of `trim()` has no ECMAScript white space or line terminator at either end |
| `Text.TrimCut` | script.js:80 | `trim()` removes exactly a prefix and a suffix made of white space |
| `Text.TrimEmptyIffAllSpace` | script.js:65 | The text trims to nothing exactly when it is all white space (the `Empty CSV` test) |
| `Text.ToLower` | script.js:55 | Lower-casing keeps the length and leaves no upper-case ASCII letter |
| `Sheets.NormalizeHeader` | script.js:54-56 | A normalized header has no leading or trailing white space and no upper-case letter |
| `Sheets.NormalizeHeaderIdempotent` | script.js:54-56 | Normalizing twice is the same as normalizing once |
| `Sheets.NormalizeHeaders` | script.js:69 | The header row is mapped into a new sequence of the same length, and every header in it is trimmed and has no upper-case letter |
| `Sheets.KeyColumn` | script.js:71-82 | The key column is `name` if present, else `title`, else the first header; there is none only when there are no headers |
| `Sheets.RecordOf` | script.js:78-81 | A record has exactly the headers as fields, and every value is trimmed |
| `Sheets.RecordField` | script.js:76-81 | The value of a field is the trimmed cell under its last column, or `''` when the row is too short |
| `Sheets.RecordIgnoresExtraCells` | script.js:76-81 | Rows that agree once padded and cut to the header count give the same record, so extra cells are ignored |
| `Sheets.LastIndexOf` | script.js:83-85 | The last position of a key in the row keys, or -1 exactly when no row has it |
| `Sheets.CollectLookup` | script.js:83-85 | A key is stored exactly when some entry has it and it is non-empty, and its record is that of the last such entry |
| `Sheets.BuildTable` | script.js:74-86 | The table the data rows build; no key in it is empty, and no data row gives the empty table |
| `Sheets.TableLookup` | script.js:82-86 | A key is in the table exactly when some data row has it as a non-empty key, and the table holds the record of the last such row |
| `Sheets.LaterRowWins` | script.js:83-85 | For a repeated key, the table holds the record of the later row |
| `Sheets.TableShape` | script.js:78-85 | Every table key is non-empty with no space at either end, and every record has exactly the normalized headers as fields |
| `Sheets.BlankKeyDropped` | script.js:80-85 | A key that is empty or only white space is never in the table |
| `Sheets.PadRow` | script.js:77 | A row shorter than the header count is padded to it with `''`; its own cells are kept in order, only empty cells are added, and a longer row is left as it is |
| `Sheets.BuildRecord` | script.js:78-81 | The header loop assigns each header its trimmed cell (or `''` past the end of the row), building exactly `RecordOf` |
| `Sheets.FillTable` | script.js:74-90 | The `forEach` loop (padding, record building, keyed insertion) builds exactly `BuildTable`, and the count equals the number of table keys |
| `Sheets.Ingest` | script.js:61-91 | A failed request is a network error; a blank body is `Empty CSV`; a non-blank body that parses to no row is `No rows parsed`; otherwise the result is the table built from the data rows under the normalized first row. On success every record has exactly those headers as fields under a non-empty key |
| `Sheets.HeaderOnlySheet` | script.js:66-91 | A non-blank sheet with a header row and no data row loads as the empty table |
| `Sheets.NoRowsExample` | script.js:65-67 | A lone `""` is not blank but parses to no row, so the load fails with `No rows parsed` |
| `Sheets.OneProductExample` | script.js:64-91 | `name,description,price\nApple,Fresh fruit,1.50\n` yields one product `Apple` with three trimmed fields |
| `Sheets.Store.constructor` | script.js:7 | The table starts empty |
| `Sheets.Store.Load` | script.js:64-99 | On success the table is replaced by the built table and the count of its keys is returned; on any failure the table is unchanged and the error is returned |
| `Modal.FindCard` | script.js:116 | The card found has the key and is the first with it; there is none exactly when no card has the key |
| `Modal.ImageFor` | script.js:116-132 | When no card has the key the image is hidden with empty source and alt; a hidden image is always blank |
| `Modal.Render` | script.js:112-147 | The title is the key; description, unit, availability and sku each show their own non-empty field of the key's record, or their own placeholder otherwise, slot by slot; a key missing from the table shows every placeholder; the price slot is `PriceText` of the record, or `—` without one |
| `Modal.PriceText` | script.js:144 | With a currency: the price, a space and the currency; with a price and no currency: the price alone; with neither: `—` |
| `Modal.PriceDash` | script.js:144 | The price slot is `—` exactly when price and currency are both empty, or when the price is `—` and there is no currency |
| `Modal.PriceWithCurrency` | script.js:144 | With a non-empty currency the slot is the price, a space and the currency |
| `Modal.PriceExamples` | script.js:144 | Price `1.50` with currency `USD` shows `1.50 USD`; a record with neither shows `—` |
| `Modal.EmptyTableRender` | script.js:113-147 | With an empty table the title is the key and every other text slot shows its placeholder |
| `Modal.ImageFromFirstCard` | script.js:116-132 | With the first card with the key: visible exactly when it has an image; then it shows that image's source and its alt, or the key when the alt is empty; otherwise hidden with empty source and alt |
| `Modal.Dialog.Open` | script.js:112-158 | The slots are rendered for the key; the dialog is shown and not `aria-hidden`; scrolling is blocked; the previous focus is remembered and the close button is focused |
| `Modal.Dialog.Close` | script.js:160-169 | The dialog is hidden and `aria-hidden`, scrolling is restored, and the focus returns to the remembered element if there is one |
| `Modal.Dialog.KeyDown` | script.js:191-193 | Escape closes the dialog only while it is shown; any other key, or Escape while closed, changes nothing |
| `Modal.Dialog.Click` | script.js:188-190 | A click whose target is the backdrop itself closes the dialog; a click inside the content changes nothing (the close button's own listener at line 187 is `Dialog.Close`) |
| `Modal.EscapeRestoresFocus` | script.js:150-193 | Opening from a focused card and pressing Escape leaves the dialog closed with the focus back on that card |

## Left out

- The network: `fetch`, the promise chain, `resp.ok` and `resp.text()` are represented only by their outcome, an optional response body (`None` for a failed request or a response that is not ok).
- Logging and events: `console.warn` calls, the `sheets:loaded` `CustomEvent` and its empty listener. `Store.Load` returns the count that the event would carry.
- The DOM: element lookups, `addEventListener` wiring, `attachCardHandlers` (including its Enter/Space decoding), `focus()`, `classList` and `style`. They are abstracted as the fields of `Modal.Dialog`. The activation key is left out because it only decides whether `Open` is called.
- The dialog's state before the first open comes from the page's markup, which is not part of this model. `Dialog.constructor` assumes it starts hidden.
- `Text.ToLower`: lower-cases ASCII letters only. JavaScript's `toLowerCase` applies the full Unicode case mapping, which is not modelled.
- `Sheets.NormalizeHeader`: its "no upper-case letter" covers ASCII letters only, for the same reason.
- `Text.Trim`: uses the exact ECMAScript white-space and line-terminator set. JavaScript strings are UTF-16 code units, while Dafny characters are Unicode scalar values, so lone surrogates are not modelled.
- JavaScript object quirks are not modelled: keys such as `__proto__` in `data[key] = obj` and `obj[h] = …`, and the enumeration order of `Object.keys`.
- In-place mutation of the parsed rows (`rows.shift()`, `r.push('')`) is not visible outside the loader, so `Store.Load` works on a sequence value. `FillTable` still pads a local copy of each row in a loop.
