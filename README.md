# Binary-code blocks in a Slate rich-text editor, in Dafny

This project models the "binary-code" block of a Slate-based rich-text editor
demo. It covers two source files, `src/Richtext.tsx` and
`src/BinaryCodeBlock.tsx`, and proves properties of the model.

- **The document** (module `Document`). It is a sequence of lowest-level blocks.
  - Each block has a type, an optional alignment, an optional list tag and its text leaves.
  - Each leaf has a text and its marks.
  - A selection names the range of blocks it touches.
- **The editor** (module `Richtext`, class `Editor`). Its document is updated in place by:
  - the custom `normalizeNode`, which deletes every character other than '0' and '1' from the leaves of a binary-code block;
  - `toggleBlock`;
  - `toggleMark`;
  - `handleOnKeyDown`, with the "```" shortcut and the hotkey table.

  As in Slate, every transform ends with the normalization. So the editor's document is always settled: every leaf of every binary-code block holds only '0' and '1'. A paragraph made a binary-code block by `toggleBlock` or by the shortcut loses its other characters at once.

  Each method is proved against a function of `Document`, and the properties are proved about those functions:
  - what the filter keeps;
  - normalizing is idempotent;
  - toggling flips whether a format is active;
  - toggling binary-code twice gives back the paragraphs with only their digits, and gives back the document exactly when their text was binary;
  - hotkey dispatch.
- **The decoder** (module `Decoder`). It models `binaryToString`.
  - The text is cut into chunks of at most eight characters.
  - Each chunk is read by `parseInt(chunk, 2)`: an optional sign, then the digits up to the first other character, or NaN.
  - The decoder is modelled on text without whitespace, which is the only text its caller passes it.
  - `String.fromCharCode` turns the result into a character: NaN gives 0, and any other value is taken modulo 2^16.
  - The proofs cover chunking, compositionality on byte boundaries, and the two binary blocks of the initial document ("hi" and "HelloWorld").
- **The filters** (module `Digits`). These are the normalizer's digit filter and the tooltip's whitespace strip.
- **The presenter** (module `BinaryCodeBlock`, class `Presenter`). It holds one block's tooltip and focus state.
  - Hovering decodes the block's text into the tooltip.
  - When focused, the block shows one span per character, coloured by digit.
  - The "1"/"0" buttons insert a digit into the document.

In two places the code differs from the behaviour described for it. The model follows the code in both:

- A trailing chunk of fewer than eight digits is decoded like the others, not dropped.
  - So "010010000110" decodes to "H" followed by U+0006 (`Decoder.DecodeTrailingChunk`).
- The buttons insert into the first binary-code block that the selection touches, not into the block that owns the buttons (see "## Findings").

## Model

| member | source | states |
|---|---|---|
| `Digits.KeepDigits` | src/Richtext.tsx:86 | the filter's result contains only '0' and '1' and is no longer than its input |
| `Digits.KeepDigitsCount` | src/Richtext.tsx:86 | the filter keeps every '0' and every '1', with its count, and no other character (whitespace included) |
| `Digits.KeepDigitsSubsequence` | src/Richtext.tsx:86 | the kept digits appear in their original relative order |
| `Digits.KeepDigitsFixpoint` | src/Richtext.tsx:86-87 | the filter leaves a text unchanged exactly when the text is binary, so the comparison at line 87 fails exactly on binary leaves |
| `Digits.KeepDigitsIdempotent` | src/Richtext.tsx:86 | filtering twice gives what filtering once gives |
| `Digits.KeepDigitsAppend` | src/Richtext.tsx:83-91 | filtering a concatenation is concatenating the filtered parts |
| `Digits.StripWhitespace` | src/BinaryCodeBlock.tsx:54 | no character matched by `\s` remains, and the result is no longer than the input |
| `Digits.StripWhitespaceCount` | src/BinaryCodeBlock.tsx:54 | the strip keeps every character that is not whitespace, with its count, and no whitespace |
| `Digits.StripWhitespaceSubsequence` | src/BinaryCodeBlock.tsx:54 | the characters the strip keeps appear in their original relative order |
| `Digits.StripBinary` | src/BinaryCodeBlock.tsx:54 | stripping whitespace leaves a binary string as it is |
| `Decoder.BitValueBound` | src/BinaryCodeBlock.tsx:42 | the base-2 value of n digits is below 2^n |
| `Decoder.ByteValue` | src/BinaryCodeBlock.tsx:42 | the value of an eight-digit chunk is the weighted sum of its digits, 128 down to 1 |
| `Decoder.Chunks` | src/BinaryCodeBlock.tsx:41 | `match(/.{1,8}/g)` gives (n+7)/8 chunks; the k-th is the window from 8k to 8k+8, cut short at the end |
| `Decoder.ChunkLengths` | src/BinaryCodeBlock.tsx:41 | every chunk but the last has eight characters; the last has one to eight |
| `Decoder.ChunksFlatten` | src/BinaryCodeBlock.tsx:41 | joining the chunks gives back the text |
| `Decoder.DigitPrefixLongest` | src/BinaryCodeBlock.tsx:42 | `parseInt` reads a prefix of binary digits and stops at the first other character |
| `Decoder.ParseDigits` | src/BinaryCodeBlock.tsx:42 | on a non-empty binary chunk `parseInt` reads the whole chunk and gives its base-2 value |
| `Decoder.ParseBound` | src/BinaryCodeBlock.tsx:42 | a chunk of at most eight characters parses to NaN or to a number of magnitude below 256 |
| `Decoder.ChunkCharBinary` | src/BinaryCodeBlock.tsx:42 | a non-empty binary chunk becomes the character whose code is its value, below 256 |
| `Decoder.BinaryToString` | src/BinaryCodeBlock.tsx:39-44 | one output character per chunk: (n+7)/8 characters, so the empty text gives "" |
| `Decoder.DecodeChunks` | src/BinaryCodeBlock.tsx:39-44 | on a binary text, the k-th character's code is the base-2 value of digits 8k to 8k+7 (fewer at the end) |
| `Decoder.DecodeShort` | src/BinaryCodeBlock.tsx:41-43 | a text of one to eight characters decodes to the single character of its one chunk |
| `Decoder.DecodeStep` | src/BinaryCodeBlock.tsx:41-43 | past the first eight characters, decoding goes on with the rest |
| `Decoder.DecodeAppend` | src/BinaryCodeBlock.tsx:39-44 | decoding is compositional: a prefix whose length is a multiple of eight decodes on its own |
| `Decoder.DecodeByte` | src/BinaryCodeBlock.tsx:41-43 | one to eight binary digits decode to exactly the character with their value |
| `Decoder.DecodeBytes` | src/BinaryCodeBlock.tsx:39-44 | a list of whole bytes, each encoding one character of a text, decodes to exactly that text |
| `Decoder.DecodeNonDigits` | src/BinaryCodeBlock.tsx:42 | on non-digits `parseInt` stops early ("01x" gives U+0001), NaN gives U+0000 ("x1") and a '-' sign wraps modulo 2^16 ("-1" gives U+FFFF) |
| `Decoder.DecodeTrailingChunk` | src/BinaryCodeBlock.tsx:41-43 | "010010000110" decodes to "H" and U+0006: the trailing four digits are decoded, not dropped |
| `Decoder.DecodeHi` | src/Richtext.tsx:412 | the first binary-code block of the initial document decodes to "hi" |
| `Decoder.HelloWorldDigits` | src/Richtext.tsx:424 | the text of the second binary-code block is the ten bytes H, e, l, l, o, W, o, r, l, d joined |
| `Decoder.DecodeHelloWorld` | src/Richtext.tsx:424 | that text is binary and decodes to "HelloWorld" |
| `Document.Rewrites` | src/Richtext.tsx:83-89 | the leaves the pass rewrites are exactly the non-binary leaves of a binary-code block, in increasing order |
| `Document.NormalizedIsBinary` | src/Richtext.tsx:82-91 | after the pass every leaf of a binary-code block is binary |
| `Document.NormalizedLeafContents` | src/Richtext.tsx:86-88 | each leaf keeps its digits in order and with their counts, loses every other character, and keeps its marks; the block keeps its alignment and list |
| `Document.NormalizedFrame` | src/Richtext.tsx:82 | blocks of any other type are left alone and nothing is written to them |
| `Document.NoRewritesIffUnchanged` | src/Richtext.tsx:86-89 | the pass writes nothing exactly when the block is already normalized |
| `Document.NormalizedText` | src/Richtext.tsx:83-91 | the joined text of a normalized binary-code block is its joined text with every non-digit removed |
| `Document.NormalizeIdempotent` | src/Richtext.tsx:78-96 | a second pass over a normalized block writes nothing and changes nothing |
| `Document.NormalizedTwice` | src/Richtext.tsx:78-96 | normalizing the document twice gives what normalizing it once gives |
| `Document.SettledNormalized` | src/Richtext.tsx:78-96 | the pass leaves a document as it is exactly when every leaf of every binary-code block is binary |
| `Document.NormalizedSettled` | src/Richtext.tsx:78-96 | after the pass every leaf of every binary-code block is binary |
| `Document.TransformsKeepSettled` | src/Richtext.tsx:196-229 | unwrapping, wrapping and mark edits keep every binary-code leaf binary, so the normalization after them writes nothing |
| `Document.AppendKeepsSettled` | src/BinaryCodeBlock.tsx:92-94 | appending binary digits at a block's end keeps every binary-code leaf binary |
| `Document.NormalizedDocument` | src/Richtext.tsx:78-96 | the pass keeps the block count, leaves every binary-code block binary and every other block unchanged |
| `Document.FirstMatch` | src/Richtext.tsx:240-248 | the result is the first selected block satisfying the predicate, or none when no selected block does |
| `Document.BlockActiveIff` | src/Richtext.tsx:232-251 | `isBlockActive` holds exactly when some selected block has the format in the given property; never without a selection |
| `Document.MarkActiveIff` | src/Richtext.tsx:253-259 | `isMarkActive` holds exactly when the mark is present with value `true` on the first selected leaf |
| `Document.MarkEditEffect` | src/Richtext.tsx:225-229 | `addMark` sets the mark to `true` on every selected leaf and keeps the other marks with their values; `removeMark` removes exactly that mark there; texts, block properties and unselected blocks are kept |
| `Document.MarkToggleFlips` | src/Richtext.tsx:222-230 | `toggleMark` flips whether the mark is active |
| `Document.MarkToggleTwice` | src/Richtext.tsx:222-230 | toggling twice restores whether the mark is active, and restores the document when the selected leaves agree on the mark |
| `Document.ToggleAlignment` | src/Richtext.tsx:188-214 | toggling an alignment changes only the selected blocks' alignment: cleared if it was active, set otherwise |
| `Document.ToggleType` | src/Richtext.tsx:188-220 | toggling a type makes the selected blocks paragraphs if active, list items for a list format, the format otherwise; lists are unwrapped and re-wrapped only for an inactive list format; the leaves keep their marks, and their texts too, except that a block made binary-code keeps only its digits; unselected blocks are kept |
| `Document.ToggleAlignmentFlips` | src/Richtext.tsx:188-214 | toggling an alignment on a selection flips whether it is active |
| `Document.BinaryCodeOn` | src/Richtext.tsx:188-220 | toggling binary-code on plain paragraphs makes them binary-code blocks holding only their digits; the other blocks are kept |
| `Document.BinaryCodeRoundTrip` | src/Richtext.tsx:188-220 | toggling binary-code twice on plain paragraphs gives them back with only their digits, and gives back the document exactly when their text was binary |
| `Document.KeyDownDispatch` | src/Richtext.tsx:104-155 | with no selection nothing happens; otherwise, outside the shortcut, "mod+shift+b" toggles the binary-code block, the other four hotkeys toggle their marks and any other key changes nothing |
| `Document.ShortcutEffect` | src/Richtext.tsx:119-129 | the shortcut's `setNodes`, with the normalization that ends it, turns exactly the selected paragraphs into binary-code blocks holding only their digits and keeps everything else |
| `Document.ShortcutEmptiesLine` | src/Richtext.tsx:114-129 | typed on a paragraph, the shortcut leaves its "```" line empty once normalized |
| `Document.AppendedAtEndText` | src/BinaryCodeBlock.tsx:92-94 | inserting at the end of a block appends the value to the block's text and keeps the leaves, marks and properties |
| `Richtext.Editor.constructor` | src/Richtext.tsx:78-96 | the editor holds the initial document and selection; it is settled exactly when the initial document is |
| `Richtext.Editor.SetLeafText` | src/Richtext.tsx:88 | `insertText` at a leaf's path replaces exactly that leaf's text |
| `Richtext.Editor.NormalizeNode` | src/Richtext.tsx:78-92 | the loop leaves the block normalized and every other block unchanged, and reports the leaves it rewrote as `Rewrites` |
| `Richtext.Editor.Normalize` | src/Richtext.tsx:78-96 | normalizing every block leaves the document equal to `Normalized` of the old one |
| `Richtext.Editor.UnwrapNodes` | src/Richtext.tsx:196-203 | the selected blocks leave their list, except for an alignment format; the document stays settled |
| `Richtext.Editor.SetNodes` | src/Richtext.tsx:204-214 | the new properties are set on the selected blocks, then the document is normalized, so it stays settled |
| `Richtext.Editor.WrapNodes` | src/Richtext.tsx:216-219 | the selected blocks are wrapped in a list of the format; the document stays settled |
| `Richtext.Editor.ToggleBlock` | src/Richtext.tsx:188-220 | the document becomes `BlockToggled` of the old one, normalization included, and stays settled |
| `Richtext.Editor.AddMark` | src/Richtext.tsx:228 | the mark is set to `true` on the selected leaves |
| `Richtext.Editor.RemoveMark` | src/Richtext.tsx:226 | the mark is removed from the selected leaves |
| `Richtext.Editor.ToggleMark` | src/Richtext.tsx:222-230 | the document becomes `MarkToggled` of the old one |
| `Richtext.Editor.HandleKeyDown` | src/Richtext.tsx:104-155 | the shortcut or the loop over the hotkey table leaves the document equal to `KeyDownResult` of the old one, normalization included |
| `Richtext.Editor.InsertAtBlockEnd` | src/BinaryCodeBlock.tsx:92-94 | the block at the index becomes `AppendedAtEnd` of itself and the document is normalized; for binary digits nothing else changes |
| `BinaryCodeBlock.RenderingSpans` | src/BinaryCodeBlock.tsx:128-140 | focused, each leaf shows one span per character, in order: green exactly for '1', red exactly for '0', inherited otherwise; unfocused, the leaves are shown as they are |
| `BinaryCodeBlock.NormalizedColours` | src/BinaryCodeBlock.tsx:135-137 | in a normalized binary-code block no span has the inherited colour |
| `BinaryCodeBlock.NormalizedHoverable` | src/BinaryCodeBlock.tsx:46-59 | over a normalized binary-code block the decoded text is the block's binary joined text, and each tooltip character's code is the value of its chunk |
| `BinaryCodeBlock.DigitClickEffect` | src/BinaryCodeBlock.tsx:77-96 | as written: no selection, or no selected binary-code block, changes nothing; otherwise the first selected binary-code block becomes `AppendedAtEnd` of itself: the digit is appended to its text, and its type, alignment, list tag, leaves and marks are kept; every other block is kept |
| `BinaryCodeBlock.ClickTargetsSelection` | src/BinaryCodeBlock.tsx:88-95 | as written, with the cursor in another binary-code block the digit goes there, and with the cursor in a paragraph it is lost; the intended click reaches the owner in both cases |
| `BinaryCodeBlock.OwnDigitClickEffect` | src/BinaryCodeBlock.tsx:88-95 | corrected: without a selection nothing changes; with one, the owning block becomes `AppendedAtEnd` of itself: the digit is appended to its text, and its type, alignment, list tag, leaves and marks are kept; every other block is kept |
| `BinaryCodeBlock.Presenter.constructor` | src/BinaryCodeBlock.tsx:33-36 | the tooltip starts hidden and the block unfocused |
| `BinaryCodeBlock.Presenter.MouseEnter` | src/BinaryCodeBlock.tsx:46-69 | a non-empty whitespace-free text is decoded into a visible tooltip at the pointer; an empty text leaves the tooltip as it was; focus is kept |
| `BinaryCodeBlock.Presenter.MouseLeave` | src/BinaryCodeBlock.tsx:71-74 | the tooltip is reset to hidden and empty at (0, 0); focus is kept |
| `BinaryCodeBlock.Presenter.Focus` | src/BinaryCodeBlock.tsx:98-101 | the block becomes focused; the tooltip is kept |
| `BinaryCodeBlock.Presenter.Blur` | src/BinaryCodeBlock.tsx:102-105 | the block becomes unfocused; the tooltip is kept |
| `BinaryCodeBlock.Presenter.ClickDigit` | src/BinaryCodeBlock.tsx:77-96 | as written: the document becomes `DigitClicked` of the old one |
| `BinaryCodeBlock.Presenter.ClickOwnDigit` | src/BinaryCodeBlock.tsx:88-95 | corrected: the document becomes `OwnDigitClicked` for this presenter's block |

## Left out

- React rendering, JSX layout, CSS, the toolbar buttons, `Leaf` and `Element` rendering are not modelled. The presenter's view is kept as data (`Rendering`), and the tooltip's position and style are left out.
- The model has no document tree of Slate nodes. A block is a lowest-level element, and its list wrapper is a `list` tag on the block. `wrapNodes` sets that tag, and `unwrapNodes` with `split: true` clears it on the selected blocks.
- Slate paths, points, offsets and `Editor.unhangRange` are not modelled. A selection is the range of whole blocks it touches. Marks are read from the first leaf of the first selected block, and mark edits apply to every leaf of those blocks. Partial selections inside a leaf, and the editor's pending marks for a collapsed cursor, are left out.
- The default `normalizeNode` that the custom one calls at line 95 is not modelled. The custom pass is modelled on its own, and Slate's scheduling of dirty paths becomes a pass over every block.
- `isHotkey` is abstracted as equality between the event's key combination and a table key. Platform handling of "mod" is not modelled.
- `preventDefault` is not modelled. The editor's history (`withHistory`) is not modelled.
- `console.log` is not modelled.
- After the "```" shortcut, the `Transforms.delete` and `Transforms.insertText("")` at lines 130-137 are not modelled. `Document.ShortcutEmptiesLine` shows instead that normalizing the new binary-code block already empties the "```" line.
- StartLeafText: the shortcut's test reads the first leaf of the first selected block, where the source reads the leaf at the selection's start point (lines 115-116); the two differ when the selection starts in a later leaf of a block.
- The mouse event's coordinates are integers in the model. In the source they are floating-point pixel positions.
- `!children` at line 47 is modelled as an empty list of leaves. Either way, the tooltip is left as it was.
- The decoder matches the source on text without whitespace, which is all its caller passes it (the strip at src/BinaryCodeBlock.tsx:54 runs first). On other text it differs: JavaScript's `.` does not match line terminators and `parseInt` skips leading whitespace, and neither is modelled. So `BinaryToString("0\n1")` is one character in the model and two in JavaScript, and `BinaryToString(" 1")` gives U+0000 in the model and U+0001 in JavaScript.
- The decoder counts Dafny characters, which are Unicode scalar values. JavaScript's `.` counts UTF-16 code units, so on whitespace-free text the two differ only for characters outside the Basic Multilingual Plane.
- A layout calculator that wraps lines at byte boundaries and pads the last line is not in either source file. It is not part of this model.
- The initial document's other blocks, and the `CustomTypes` declarations, are not modelled. Only the two binary-code texts of `initialValue` are modelled, as test vectors.

## Findings

| source | as written | input that shows it | evidently intended | confidence | as-written member | corrected member |
|---|---|---|---|---|---|---|
| src/BinaryCodeBlock.tsx:88-95 | the button inserts its digit at the end of the first binary-code block under the editor's selection (`Editor.nodes` with no `at`), whichever block the button belongs to | blocks [binary "0", binary "1", paragraph ""] with the cursor in block 0: clicking block 1's "1" makes block 0 "01" and leaves block 1 "1"; with the cursor in block 2 the click does nothing | the digit is appended to the end of the block whose button was clicked (comment "insert at end of block") | not executed | `BinaryCodeBlock.DigitClicked` (`BinaryCodeBlock.ClickTargetsSelection`) | `BinaryCodeBlock.OwnDigitClicked` (`BinaryCodeBlock.OwnDigitClickEffect`) |
