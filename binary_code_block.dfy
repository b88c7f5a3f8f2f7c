/**
 * The presenter of one binary-code block (src/BinaryCodeBlock.tsx): its
 * tooltip and focus state, the per-character colouring shown while it is
 * focused, and the "1"/"0" buttons that insert a digit into the document.
 */
module BinaryCodeBlock {
  import opened Wrappers
  import opened Digits
  import opened Decoder
  import opened Document
  import opened Richtext

  /** The tooltip state record. */
  datatype Tooltip = Tooltip(visible: bool, text: string, x: int, y: int)

  const Hidden: Tooltip := Tooltip(false, "", 0, 0)

  datatype Colour = Green | Red | Inherit

  /** One span of the focused rendering: a character padded by a space on each side. */
  datatype Glyph = Glyph(text: string, colour: Colour)

  /** How one leaf is shown: as it is, or as one coloured span per character. */
  datatype Rendered = Verbatim(leaf: Leaf) | Spans(glyphs: seq<Glyph>)

  function ColourOf(c: char): Colour {
    if c == '1' then Green else if c == '0' then Red else Inherit
  }

  /** The spans of a focused leaf, in the order of its characters. */
  function FocusedGlyphs(text: string): seq<Glyph> {
    seq(|text|, k requires 0 <= k < |text| => Glyph([' ', text[k], ' '], ColourOf(text[k])))
  }

  /** The children of the code element: the leaves themselves unless the block is focused. */
  function Rendering(focused: bool, children: seq<Leaf>): seq<Rendered> {
    seq(|children|, j requires 0 <= j < |children| =>
      if focused then Spans(FocusedGlyphs(children[j].text)) else Verbatim(children[j]))
  }

  /**
   * Focused, each leaf shows one span per character, in order: green for
   * '1', red for '0' and the inherited colour for anything else. Unfocused,
   * the leaves are shown as they are.
   */
  lemma RenderingSpans(focused: bool, children: seq<Leaf>, j: nat)
    requires j < |children|
    ensures |Rendering(focused, children)| == |children|
    ensures !focused ==> Rendering(focused, children)[j] == Verbatim(children[j])
    ensures focused ==>
      var gs := Rendering(focused, children)[j].glyphs;
      var t := children[j].text;
      Rendering(focused, children)[j].Spans? && |gs| == |t|
      && forall k :: 0 <= k < |t| ==>
        gs[k].text[1] == t[k]
        && (gs[k].colour == Green <==> t[k] == '1')
        && (gs[k].colour == Red <==> t[k] == '0')
        && (gs[k].colour == Inherit <==> !IsDigit(t[k]))
  {
  }

  /** In a normalized binary-code block no character has the inherited colour. */
  lemma NormalizedColours(b: Block, j: nat)
    requires b.kind == BinaryCode && j < |b.children|
    ensures forall g :: g in FocusedGlyphs(NormalizedBlock(b).children[j].text) ==> g.colour != Inherit
  {
    var t := NormalizedBlock(b).children[j].text;
    NormalizedIsBinary(b);
    forall g | g in FocusedGlyphs(t) ensures g.colour != Inherit {
      var k :| 0 <= k < |t| && FocusedGlyphs(t)[k] == g;
      assert IsDigit(t[k]);
    }
  }

  /** Leaves made of binary digits join into a binary string. */
  lemma {:induction false} LeafTextsBinary(cs: seq<Leaf>)
    requires forall j :: 0 <= j < |cs| ==> IsBinary(cs[j].text)
    ensures IsBinary(LeafTexts(cs))
    decreases |cs|
  {
    if cs != [] {
      LeafTextsBinary(cs[..|cs| - 1]);
      BinaryAppend(LeafTexts(cs[..|cs| - 1]), cs[|cs| - 1].text);
    }
  }

  /**
   * Over a normalized binary-code block, the text the tooltip decodes is the
   * block's joined text, made of binary digits only, so each tooltip
   * character has as its code the base-2 value of its chunk of eight digits.
   */
  lemma NormalizedHoverable(b: Block)
    requires b.kind == BinaryCode
    ensures var text := LeafTexts(NormalizedBlock(b).children);
      StripWhitespace(text) == text && IsBinary(text)
      && forall k :: 0 <= k < |BinaryToString(text)| ==> BinaryToString(text)[k] as int == ChunkValue(text, k)
  {
    var text := LeafTexts(NormalizedBlock(b).children);
    NormalizedIsBinary(b);
    LeafTextsBinary(NormalizedBlock(b).children);
    StripBinary(text);
    DecodeChunks(text);
  }

  predicate IsBinaryBlock(b: Block) {
    b.kind == BinaryCode
  }

  /**
   * `handleClickBinaryCodeBtn` as written: with a selection, the digit is
   * appended at the end of the first binary-code block the selection
   * touches, whichever block the button belongs to.
   */
  function DigitClicked(bs: seq<Block>, sel: Option<Range>, value: string): seq<Block> {
    if sel.None? then bs
    else match FirstMatch(bs, sel, IsBinaryBlock)
      case None => bs
      case Some(i) => bs[i := AppendedAtEnd(bs[i], value)]
  }

  /**
   * Without a selection, or with one that touches no binary-code block, a
   * click changes nothing. Otherwise the first selected binary-code block
   * gets exactly the digit appended to its text, and every other block is kept.
   */
  lemma {:induction false} DigitClickEffect(bs: seq<Block>, sel: Option<Range>, value: string)
    requires WellFormed(bs) && Fits(bs, sel)
    ensures sel.None? ==> DigitClicked(bs, sel, value) == bs
    ensures (forall i: nat :: i < |bs| && Selected(sel, i) ==> bs[i].kind != BinaryCode) ==>
      DigitClicked(bs, sel, value) == bs
    ensures forall i: nat ::
      (i < |bs| && Selected(sel, i) && bs[i].kind == BinaryCode
       && forall j: nat :: Selected(sel, j) && j < i ==> bs[j].kind != BinaryCode) ==>
        var r := DigitClicked(bs, sel, value);
        |r| == |bs| && r[i] == AppendedAtEnd(bs[i], value) && r[i].kind == BinaryCode
        && r[i].align == bs[i].align && r[i].list == bs[i].list
        && LeafTexts(r[i].children) == LeafTexts(bs[i].children) + value
        && |r[i].children| == |bs[i].children|
        && (forall j :: 0 <= j < |bs[i].children| ==> r[i].children[j].marks == bs[i].children[j].marks)
        && (forall j :: 0 <= j < |bs[i].children| - 1 ==> r[i].children[j] == bs[i].children[j])
        && forall k :: 0 <= k < |bs| && k != i ==> r[k] == bs[k]
  {
    var m := FirstMatch(bs, sel, IsBinaryBlock);
    forall i: nat | i < |bs| && Selected(sel, i) && bs[i].kind == BinaryCode
      && (forall j: nat :: Selected(sel, j) && j < i ==> bs[j].kind != BinaryCode)
      ensures var r := DigitClicked(bs, sel, value);
        |r| == |bs| && r[i] == AppendedAtEnd(bs[i], value) && r[i].kind == BinaryCode
        && r[i].align == bs[i].align && r[i].list == bs[i].list
        && LeafTexts(r[i].children) == LeafTexts(bs[i].children) + value
        && |r[i].children| == |bs[i].children|
        && (forall j :: 0 <= j < |bs[i].children| ==> r[i].children[j].marks == bs[i].children[j].marks)
        && (forall j :: 0 <= j < |bs[i].children| - 1 ==> r[i].children[j] == bs[i].children[j])
        && forall k :: 0 <= k < |bs| && k != i ==> r[k] == bs[k]
    {
      assert IsBinaryBlock(bs[i]);
      assert m.Some? && m.value == i;
      AppendedAtEndText(bs[i], value);
    }
  }

  /**
   * The evidently intended click: the digit goes to the end of the block
   * whose button was pressed (`owner`), wherever the selection is.
   */
  function OwnDigitClicked(bs: seq<Block>, sel: Option<Range>, owner: nat, value: string): seq<Block> {
    if sel.None? || owner >= |bs| || bs[owner].kind != BinaryCode then bs
    else bs[owner := AppendedAtEnd(bs[owner], value)]
  }

  /** With a selection, the owner block gets exactly the digit appended; every other block is kept. */
  lemma OwnDigitClickEffect(bs: seq<Block>, sel: Option<Range>, owner: nat, value: string)
    requires WellFormed(bs) && owner < |bs| && bs[owner].kind == BinaryCode
    ensures sel.None? ==> OwnDigitClicked(bs, sel, owner, value) == bs
    ensures sel.Some? ==>
      var r := OwnDigitClicked(bs, sel, owner, value);
      |r| == |bs| && r[owner] == AppendedAtEnd(bs[owner], value) && r[owner].kind == BinaryCode
      && r[owner].align == bs[owner].align && r[owner].list == bs[owner].list
      && LeafTexts(r[owner].children) == LeafTexts(bs[owner].children) + value
      && |r[owner].children| == |bs[owner].children|
      && (forall j :: 0 <= j < |bs[owner].children| ==> r[owner].children[j].marks == bs[owner].children[j].marks)
      && (forall j :: 0 <= j < |bs[owner].children| - 1 ==> r[owner].children[j] == bs[owner].children[j])
      && forall k :: 0 <= k < |bs| && k != owner ==> r[k] == bs[k]
  {
    AppendedAtEndText(bs[owner], value);
  }

  /**
   * As written, a click on the buttons of the second of two binary-code
   * blocks, while the cursor is in the first, appends to the first and
   * leaves the second alone; with the cursor in a paragraph it does nothing.
   * The intended click appends to the second block in both cases.
   */
  lemma ClickTargetsSelection()
    ensures var bs := [Block(BinaryCode, None, None, [Leaf("0", map[])]),
                       Block(BinaryCode, None, None, [Leaf("1", map[])]),
                       Block(Paragraph, None, None, [Leaf("", map[])])];
      DigitClicked(bs, Some(Range(0, 0)), "1")[1] == bs[1]
      && DigitClicked(bs, Some(Range(0, 0)), "1")[0].children[0].text == "01"
      && DigitClicked(bs, Some(Range(2, 2)), "1") == bs
      && OwnDigitClicked(bs, Some(Range(0, 0)), 1, "1")[1].children[0].text == "11"
      && OwnDigitClicked(bs, Some(Range(2, 2)), 1, "1")[1].children[0].text == "11"
  {
    var bs := [Block(BinaryCode, None, None, [Leaf("0", map[])]),
               Block(BinaryCode, None, None, [Leaf("1", map[])]),
               Block(Paragraph, None, None, [Leaf("", map[])])];
    assert IsBinaryBlock(bs[0]) && !IsBinaryBlock(bs[2]);
    assert FirstMatch(bs, Some(Range(0, 0)), IsBinaryBlock) == Some(0);
    assert FirstMatch(bs, Some(Range(2, 2)), IsBinaryBlock) == None;
  }

  /** The presenter of the binary-code block at index `element` of the editor's document. */
  class Presenter {
    const editor: Editor
    const element: nat
    var tooltip: Tooltip
    var isFocused: bool

    constructor(editor: Editor, element: nat)
      ensures this.editor == editor && this.element == element
      ensures tooltip == Hidden && !isFocused
    {
      this.editor := editor;
      this.element := element;
      tooltip := Hidden;
      isFocused := false;
    }

    /** What the code element shows for the given leaves. */
    function View(children: seq<Leaf>): seq<Rendered>
      reads this
    {
      Rendering(isFocused, children)
    }

    /**
     * `handleBinaryCodeMouseEnter`: the leaves' text without whitespace is
     * decoded into a visible tooltip at the pointer; with no text the
     * tooltip is left as it was.
     */
    method MouseEnter(children: seq<Leaf>, x: int, y: int)
      modifies this
      ensures isFocused == old(isFocused)
      ensures var binaryText := StripWhitespace(LeafTexts(children));
        tooltip == if binaryText == [] then old(tooltip)
                   else Tooltip(true, BinaryToString(binaryText), x, y)
    {
      if children == [] {
        return;
      }
      var binaryText := StripWhitespace(LeafTexts(children));
      if binaryText != [] {
        tooltip := Tooltip(true, BinaryToString(binaryText), x, y);
      }
    }

    /** `handleBinaryCodeMouseLeave`. */
    method MouseLeave()
      modifies this
      ensures isFocused == old(isFocused)
      ensures tooltip == Hidden
    {
      tooltip := Hidden;
    }

    /** `handleFocus`. */
    method Focus()
      modifies this
      ensures tooltip == old(tooltip)
      ensures isFocused
    {
      isFocused := true;
    }

    /** `handleBlur`. */
    method Blur()
      modifies this
      ensures tooltip == old(tooltip)
      ensures !isFocused
    {
      isFocused := false;
    }

    /** `handleClickBinaryCodeBtn`, as written. */
    method ClickDigit(value: string)
      requires editor.Valid() && (value == "0" || value == "1")
      modifies editor
      ensures editor.Valid() && editor.selection == old(editor.selection)
      ensures editor.blocks == DigitClicked(old(editor.blocks), editor.selection, value)
    {
      if editor.selection.None? {
        return;
      }
      var entry := FirstMatch(editor.blocks, editor.selection, IsBinaryBlock);
      if entry.Some? {
        editor.InsertAtBlockEnd(entry.value, value);
      }
    }

    /** The click as evidently intended: insert at the end of this presenter's own block. */
    method ClickOwnDigit(value: string)
      requires editor.Valid() && (value == "0" || value == "1")
      modifies editor
      ensures editor.Valid() && editor.selection == old(editor.selection)
      ensures editor.blocks == OwnDigitClicked(old(editor.blocks), editor.selection, element, value)
    {
      if editor.selection.None? || element >= |editor.blocks| || editor.blocks[element].kind != BinaryCode {
        return;
      }
      editor.InsertAtBlockEnd(element, value);
    }
  }
}
