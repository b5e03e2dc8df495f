# Purchase-order upload app: a Dafny model of its decision logic

The application is a small Flask web app. Users upload scanned purchase
orders, the app runs OCR on them, and users review the extracted text and
submit it. Three pieces of that app make decisions, and this project models
them as pure Dafny functions and one side-effect-free method, and proves what
they do:

- **The upload filter** `allowed_file` (module `Upload`). It accepts a filename
  when the text after its last dot, lower-cased, is `png`, `jpg`, `jpeg` or
  `pdf`.
- **The purchase-order check** `verify_po` (module `PurchaseOrder`). It scans
  the lines of a text for the first line that starts with "po" in any case and
  contains a colon. That line alone decides: the text between its first and
  second colon, stripped of whitespace, must be `12345` or `98765`. A "po" line
  without a colon is passed over.
- **The submit handler's entry loop** (module `Submission`). For every form key
  starting with `text_`, in the order the form's iteration yields them, it
  makes one entry. The entry holds the text, its `verify_po` verdict and a
  sales-order number `SO-` plus the first eight characters of a fresh UUID.

The Python string methods these rely on are modelled in module `PyStr`:

- `lower`
- `startswith`
- `strip`
- `split(sep)`
- `rsplit(sep, 1)`
- `splitlines`

`strip` removes exactly the characters Python's `str.isspace` accepts.
`splitlines` breaks at exactly Python's line boundaries, taking "\r\n" as one
boundary and never producing an empty last line after a final terminator.

The form posted to `/submit` is a werkzeug multi-valued dictionary. The model
represents it as the sequence of posted fields, in posting order, and repeated
keys are allowed:

- Iterating over it yields each key once, in the order of its first posting (`Keys`).
- `form[key]` reads the first value posted under that key (`Get`).

One might expect the first line starting with "po" to decide, and the result
to be false when that line has no colon. The code (app.py:49-51) instead
passes over a colon-less "po" line and keeps scanning; the model follows the
code.
`PurchaseOrder.VerifyPoExampleColonlessSkipped` is a text on which the two
readings differ. `PurchaseOrder.VerifyPoExampleOnlyFirstDecides` shows the
other side of the rule: a valid number on a later "po" line does not rescue an
invalid first deciding line.

## Model

| member | source | states |
|---|---|---|
| PyStr.Lower | app.py:30 | `.lower()` keeps the length and has no further contract of its own; it is pinned down by LowerAlphabet (A-Z become a-z), LowerFixed (text without A-Z is kept) and LowerAppend (it works piece by piece) |
| PyStr.LowerFixed | app.py:30 | lowering leaves text without upper-case ASCII letters unchanged |
| PyStr.LowerAlphabet | app.py:30 | "ABCDEFGHIJKLMNOPQRSTUVWXYZ" lowers to "abcdefghijklmnopqrstuvwxyz" |
| PyStr.StartsWith | app.py:49 | no contract of its own; its body (`p` is no longer than `s` and equals the start of `s`) is Python's prefix test; its "po" use after lowering is characterised by PurchaseOrder.IsPoLineIff and its "text_" use by Submission.IsTextKeyIff |
| PyStr.LowerHasNoUpper | app.py:30 | after `.lower()` no ASCII upper-case letter is left |
| PyStr.LowerAppend | app.py:49 | the ASCII lowering distributes over concatenation |
| PyStr.Strip | app.py:52 | the result of `.strip()` is no longer than the input and neither starts nor ends with whitespace |
| PyStr.StripDecompose | app.py:52 | `.strip()` returns a contiguous middle part of the input; everything cut off on either side is whitespace |
| PyStr.StripOf | app.py:52 | whitespace, then a core with non-space ends, then whitespace: `.strip()` returns exactly that core |
| PyStr.Split | app.py:50 | `.split(':')` always returns at least one part |
| PyStr.SplitSeveralIff | app.py:50-51 | `len(line.split(':')) > 1` exactly when the line contains a colon |
| PyStr.SplitNoSep | app.py:50 | no part of a split contains the separator |
| PyStr.SplitJoin | app.py:50 | joining the parts with the separator gives back the original string |
| PyStr.JoinSplit | app.py:50 | splitting a join of separator-free parts gives back the parts |
| PyStr.SplitOfField | app.py:50 | a separator-free piece followed by the separator comes off as the first part |
| PyStr.RSplitOnce | app.py:30 | `rsplit('.', 1)` gives one part (the whole name) exactly when there is no dot; otherwise it gives the text before and after a dot, and the second part contains no dot, so it was the last dot |
| PyStr.RSplitOnceOf | app.py:30 | for any head and a dot-free tail, `(head + '.' + tail).rsplit('.', 1)` is `[head, tail]` |
| PyStr.SplitLines | app.py:48 | no line that `.splitlines()` returns contains a line break |
| PyStr.SplitLinesOfTerminated | app.py:48 | break-free lines, each followed by the same terminator (any single break character or "\r\n"), split back into exactly those lines |
| PyStr.SplitLinesAppend | app.py:48 | terminated lines followed by any text split into those lines followed by the lines of that text, unless a "\r" terminator meets a "\n" that starts the text |
| PyStr.SplitLinesOfLine | app.py:48 | a non-empty break-free text is a single line |
| Upload.AllowedFile | app.py:29-30 | `allowed_file`; no contract of its own, it is characterised in both directions by Upload.AllowedFileIff |
| Upload.AllowedFileNoDot | app.py:30 | a name without a dot is rejected |
| Upload.AllowedFileLastDot | app.py:29-30 | for `head + "." + ext` with a dot-free `ext`, acceptance depends only on whether `ext` lowered is in the allowed set; the head, its dots included, plays no part |
| Upload.AllowedFileIff | app.py:29-30 | a name is accepted if and only if it is some head, a dot and a dot-free extension whose lowered form is `png`, `jpg`, `jpeg` or `pdf` |
| Upload.AllowedFileIgnoresCase | app.py:30 | lower-casing the whole name never changes the verdict |
| Upload.AllowedFileExampleNestedDots | app.py:30 | "a.tar.PNG" is accepted |
| Upload.AllowedFileExampleDoubleExtension | app.py:30 | "scan.pdf.exe" is rejected |
| Upload.AllowedFileExampleEmptyExtension | app.py:30 | "file." is rejected |
| Upload.AllowedFileExampleOnlyExtension | app.py:30 | ".png" is accepted while "png" is rejected |
| PurchaseOrder.VerifyPo | app.py:46-54 | `verify_po`; no contract of its own, it is characterised in both directions by PurchaseOrder.VerifyPoIff |
| PurchaseOrder.ScanLines | app.py:48-54 | the loop of `verify_po` over the lines; no contract of its own, its behaviour is stated by ScanSkips, ScanStops, ScanFirstDecider, ScanNoDecider and ScanLinesSound |
| PurchaseOrder.IsPoLine | app.py:49 | `line.lower().startswith('po')`; no contract of its own, characterised by PurchaseOrder.IsPoLineIff |
| PurchaseOrder.Decides | app.py:49-51 | a "po" line that contains a colon, i.e. one where `len(parts) > 1` (by PyStr.SplitSeveralIff); no contract of its own |
| PurchaseOrder.PoValue | app.py:50-52 | `parts[1].strip()`; no contract of its own, characterised by PurchaseOrder.PoValueOf |
| PurchaseOrder.ScanLinesSound | app.py:48-53 | if the scan answers true, some line starts with "po", contains a colon, and carries an allow-listed value |
| PurchaseOrder.VerifyPoSound | app.py:46-54 | if `verify_po(text)` is true, some line of `text.splitlines()` starts with "po" in any case, contains a colon, and has a stripped second field of `12345` or `98765` |
| PurchaseOrder.ScanSkips | app.py:49-51 | lines before the first deciding line are passed over: non-"po" lines and colon-less "po" lines alike |
| PurchaseOrder.ScanStops | app.py:50-53 | a "po" line with a colon settles the result by its value; no later line is read |
| PurchaseOrder.ScanFirstDecider | app.py:48-53 | the first deciding line alone determines the result |
| PurchaseOrder.ScanNoDecider | app.py:54 | with no deciding line the result is false |
| PurchaseOrder.FirstDeciderOf | app.py:48-51 | when some line decides, there is a first one |
| PurchaseOrder.VerifyPoIff | app.py:46-54 | `verify_po(text)` holds if and only if the text has a first deciding line and that line's value is on the allow-list |
| PurchaseOrder.VerifyPoNeedsPoLine | app.py:48-54 | a text with no line starting with "po" is rejected |
| PurchaseOrder.PoValueOf | app.py:50-52 | the value is exactly the text between the first and the second colon (or the end of the line), stripped |
| PurchaseOrder.IsPoLineIff | app.py:49 | a line is a "po" line exactly when its first two characters are "p" or "P", then "o" or "O" |
| PurchaseOrder.FieldLine | app.py:49-52 | a line made of a "po" word, a colon, a whitespace-padded value and then nothing or further colon-led text decides, and its value is the bare value |
| PurchaseOrder.VerifyOneLine | app.py:48 | a one-line text is scanned as that single line |
| PurchaseOrder.VerifyTwoLines | app.py:48 | two break-free lines, the second non-empty, joined by "\n" are scanned as those two lines |
| PurchaseOrder.VerifyDecidingLine | app.py:48-53 | a one-line text whose line decides verifies exactly when its value is allow-listed |
| PurchaseOrder.FirstOfTwoDecides | app.py:48-53 | in a two-line text whose first line decides, the second line is never read |
| PurchaseOrder.SecondOfTwoDecides | app.py:48-53 | in a two-line text whose first line does not decide, the second line decides |
| PurchaseOrder.VerifyPoExampleMarker | app.py:50-53 | "PO: 12345" verifies |
| PurchaseOrder.VerifyPoExampleThirdFieldIgnored | app.py:50-53 | "po:12345: extra" verifies, because text after the second colon is ignored |
| PurchaseOrder.VerifyPoExampleUnknownNumber | app.py:53 | "PO:99999" does not verify |
| PurchaseOrder.VerifyPoExampleTrailingWord | app.py:52-53 | "PO: 12345 6" does not verify, because the whole stripped field must match |
| PurchaseOrder.VerifyPoExamplePortland | app.py:49 | "Portland: 12345" verifies, because any word starting with "po" opens a "po" line |
| PurchaseOrder.VerifyPoExampleNoPoLine | app.py:54 | "no po line here" does not verify |
| PurchaseOrder.VerifyPoExampleNoColon | app.py:51 | "po reference 12345" does not verify |
| PurchaseOrder.VerifyPoExampleLaterLineIgnored | app.py:53 | "PO: 12345" followed by a second line verifies without regard to that line |
| PurchaseOrder.VerifyPoExampleColonlessSkipped | app.py:49-51 | "po ref 1" then "PO: 98765" verifies: the colon-less "po" line is passed over |
| PurchaseOrder.VerifyPoExampleOnlyFirstDecides | app.py:48-53 | "PO: 99999" then "PO: 12345" does not verify, although the second line alone would |
| Submission.Keys | app.py:75 | iterating over `request.form`; no contract of its own, characterised by Submission.KeysIff, KeysDistinct and KeysInOrder |
| Submission.Get | app.py:78 | `request.form[key]`; no contract of its own, characterised by Submission.FirstIndex, GetNew and GetAppend |
| Submission.TextOnly | app.py:76 | the `key.startswith('text_')` filter; no contract of its own, characterised by Submission.TextOnlyIff and TextOnlyKeepsOrder |
| Submission.TextKeys | app.py:75-76 | the keys the handler picks up; no contract of its own, characterised by Submission.TextKeysIff and TextKeysInOrder |
| Submission.SoNumber | app.py:81 | `'SO-' + u[:8]`, keeping Python's slice of a shorter string; its own contract repeats that expression, and what the number is made of is stated by Submission.SoNumberOfUuid |
| Submission.FirstIndex | app.py:78 | the index a key's value is read from holds that key, and no earlier field does |
| Submission.KeysIff | app.py:75 | iterating over the form visits exactly the posted keys |
| Submission.KeysDistinct | app.py:75 | the iteration visits each key once |
| Submission.KeysInOrder | app.py:75 | the iteration visits keys in the order of their first postings |
| Submission.GetAppend | app.py:78 | a later posting under a key does not change what `request.form[key]` reads |
| Submission.GetNew | app.py:78 | the first posting under a key is what `request.form[key]` reads |
| Submission.TextOnlyIff | app.py:76 | the filter keeps exactly the keys that start with "text_" |
| Submission.TextOnlyKeepsOrder | app.py:75-76 | filtering keeps the relative order of the keys |
| Submission.TextKeysIff | app.py:75-76 | the keys the handler picks up are exactly the posted keys starting with "text_", each once |
| Submission.TextKeysInOrder | app.py:75-76 | the handler meets the text keys in the order of their first postings |
| Submission.TextKeysAppend | app.py:75-76 | posting a new "text_" key adds it last; posting a repeated key or a key without the prefix changes nothing |
| Submission.SoNumberOfUuid | app.py:81 | for a UUID in its canonical text form, the sales-order number is "SO-" followed by the UUID's first eight characters, all lower-case hex digits, eleven characters in all |
| Submission.IsTextKeyIff | app.py:76 | `key.startswith('text_')` holds exactly when the key is "text_" followed by some rest, possibly empty |
| Submission.TextKeyIndex | app.py:77 | `key.split('_')[1]` cannot fail on a "text_" key; it is the part after the prefix up to the next underscore |
| Submission.Submit | app.py:73-83 | there is one entry per text key, in iteration order; entry n holds the first value posted under the n-th text key, `valid` equal to `verify_po` of that text, and the sales-order number of the n-th UUID drawn |
| Submission.SubmitDependsOnTextFields | app.py:75-78 | posting a field without the "text_" prefix, or one more value under a key already posted, changes neither the text keys nor the texts they read |
| Submission.SubmitNewTextField | app.py:75-82 | posting a new "text_" key adds exactly one text key at the end, and that key reads the posted value |

## Left out

- `extract_text` (app.py:32-44): OCR and PDF rendering are calls into foreign libraries (pytesseract, pdf2image), so the model has no text extraction.
- The upload loop of `index` (app.py:57-70) apart from its `allowed_file` test: `secure_filename`, the unique-name prefix, saving the file and rendering the template are library calls and I/O.
- The upload directory creation (app.py:26-27), Flask routing, template rendering and `app.run` (app.py:20-21, app.py:56, app.py:72, app.py:83-86): framework glue and I/O.
- `uuid.uuid4` (app.py:81): randomness becomes the parameter `uuids` of `Submission.Submit`, so `uuids(n)` is the text of the n-th UUID drawn. Uniqueness of sales-order numbers is not modelled.
- The werkzeug form class is not part of this model. Its behaviour is modelled as its documentation describes it: keys iterate once each, in order of first posting, and indexing reads the first value.
- `idx` (app.py:77) is computed and never used. The model computes it and proves that computing it cannot fail, and nothing else.
- PyStr.Lower: only the ASCII letters A-Z are lowered; Python's `str.lower` also lowers other Unicode letters. Outside ASCII, only the Kelvin sign and capital I with dot above lower to ASCII letters ("k" and "i" followed by a combining dot), and neither letter occurs in "po" or in the allowed extensions, so the two definitions accept the same names and the same lines.
