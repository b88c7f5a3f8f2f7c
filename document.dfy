/**
 * The rich-text document of the editor, abstracted from Slate's node tree:
 * a sequence of lowest-level blocks, each holding its text leaves, and a
 * selection that names the blocks it touches. The pure parts of
 * src/Richtext.tsx are stated here as functions on that document:
 * the binary-code normalizer, `isBlockActive`, `isMarkActive`, the
 * property computation of `toggleBlock`, `toggleMark`, the hotkey table
 * and the "```" shortcut.
 */
module Document {
  import opened Wrappers
  import opened Digits

  const Paragraph: string := "paragraph"
  const BinaryCode: string := "binary-code"
  const ListItem: string := "list-item"
  const ListTypes: seq<string> := ["numbered-list", "bulleted-list"]
  const TextAlignTypes: seq<string> := ["left", "center", "right", "justify"]

  /** A text node: its string and its marks; a mark whose key is absent is unset. */
  datatype Leaf = Leaf(text: string, marks: map<string, bool>)

  /**
   * A lowest-level block element. `list` is the type of the list element
   * that wraps the block, if any: wrapping and unwrapping set and clear it.
   */
  datatype Block = Block(kind: string, align: Option<string>, list: Option<string>, children: seq<Leaf>)

  /** A selection, as the range of blocks it touches, first to last. */
  datatype Range = Range(first: nat, last: nat)

  /** The element property `isBlockActive` compares with the format. */
  datatype BlockAttr = AlignAttr | TypeAttr

  /** The partial element that `toggleBlock` hands to `setNodes`. */
  datatype Properties = AlignTo(align: Option<string>) | TypeTo(kind: string)

  /** Slate keeps at least one text leaf in every block. */
  predicate WellFormed(bs: seq<Block>) {
    forall i :: 0 <= i < |bs| ==> |bs[i].children| > 0
  }

  /** The selection, if any, lies inside the document. */
  predicate Fits(bs: seq<Block>, sel: Option<Range>) {
    sel.None? || sel.value.first <= sel.value.last < |bs|
  }

  predicate Selected(sel: Option<Range>, i: nat) {
    sel.Some? && sel.value.first <= i <= sel.value.last
  }

  /** The text of a sequence of leaves, joined in order. */
  function LeafTexts(cs: seq<Leaf>): string {
    if cs == [] then "" else LeafTexts(cs[..|cs| - 1]) + cs[|cs| - 1].text
  }

  // ---------------------------------------------------------------------
  // The binary-code normalizer
  // ---------------------------------------------------------------------

  /** What the normalizer leaves in a leaf of a binary-code block. */
  function NormalizedLeaf(t: Leaf): Leaf {
    t.(text := KeepDigits(t.text))
  }

  /** The block with the filter applied to every one of its leaves. */
  function DigitsOnly(b: Block): Block {
    b.(children := seq(|b.children|, j requires 0 <= j < |b.children| => NormalizedLeaf(b.children[j])))
  }

  /** A binary-code block with every leaf filtered; any other block as it is. */
  function NormalizedBlock(b: Block): Block {
    if b.kind == BinaryCode then DigitsOnly(b) else b
  }

  /** The custom pass applied to every block of the document. */
  function Normalized(bs: seq<Block>): seq<Block> {
    seq(|bs|, i requires 0 <= i < |bs| => NormalizedBlock(bs[i]))
  }

  /**
   * The indices, among the first `n` leaves of `b`, that the pass rewrites
   * with `insertText`, in the order it visits them.
   */
  function Rewrites(b: Block, n: nat): (r: seq<nat>)
    requires n <= |b.children|
    ensures forall j: nat :: j in r <==> j < n && b.kind == BinaryCode && !IsBinary(b.children[j].text)
    ensures forall p, q :: 0 <= p < q < |r| ==> r[p] < r[q]
  {
    if n == 0 then []
    else
      var t := b.children[n - 1].text;
      KeepDigitsFixpoint(t);
      var prev := Rewrites(b, n - 1);
      assert forall p :: 0 <= p < |prev| ==> prev[p] in prev;
      prev + (if b.kind == BinaryCode && KeepDigits(t) != t then [n - 1] else [])
  }

  /** After the pass, every leaf of a binary-code block is made of '0' and '1' only. */
  lemma NormalizedIsBinary(b: Block)
    requires b.kind == BinaryCode
    ensures NormalizedBlock(b).kind == BinaryCode
    ensures forall j :: 0 <= j < |NormalizedBlock(b).children| ==> IsBinary(NormalizedBlock(b).children[j].text)
  {
  }

  /**
   * Each leaf keeps exactly its digits, in their relative order, with the
   * same count of each digit and none of any other character; its marks,
   * and the block's type, alignment and list tag are kept.
   */
  lemma NormalizedLeafContents(b: Block, j: nat, c: char)
    requires b.kind == BinaryCode && j < |b.children|
    ensures |NormalizedBlock(b).children| == |b.children|
    ensures NormalizedBlock(b).children[j].marks == b.children[j].marks
    ensures IsSubsequence(NormalizedBlock(b).children[j].text, b.children[j].text)
    ensures Count(NormalizedBlock(b).children[j].text, c) == if IsDigit(c) then Count(b.children[j].text, c) else 0
    ensures NormalizedBlock(b).align == b.align && NormalizedBlock(b).list == b.list
  {
    KeepDigitsSubsequence(b.children[j].text);
    KeepDigitsCount(b.children[j].text, c);
  }

  /** Blocks of any other type are left alone. */
  lemma NormalizedFrame(b: Block)
    requires b.kind != BinaryCode
    ensures NormalizedBlock(b) == b && Rewrites(b, |b.children|) == []
  {
    if Rewrites(b, |b.children|) != [] {
      assert Rewrites(b, |b.children|)[0] in Rewrites(b, |b.children|);
    }
  }

  /** The pass writes nothing exactly when it would leave the block as it is. */
  lemma NoRewritesIffUnchanged(b: Block)
    ensures Rewrites(b, |b.children|) == [] <==> NormalizedBlock(b) == b
  {
    if Rewrites(b, |b.children|) == [] {
      NoRewritesUnchanged(b);
    } else {
      RewriteChanges(b);
    }
  }

  lemma NoRewritesUnchanged(b: Block)
    requires Rewrites(b, |b.children|) == []
    ensures NormalizedBlock(b) == b
  {
    if b.kind == BinaryCode {
      var r := Rewrites(b, |b.children|);
      forall j | 0 <= j < |b.children| ensures NormalizedLeaf(b.children[j]) == b.children[j] {
        assert j !in r;
        KeepDigitsFixpoint(b.children[j].text);
      }
      assert NormalizedBlock(b).children == b.children;
    }
  }

  lemma RewriteChanges(b: Block)
    requires Rewrites(b, |b.children|) != []
    ensures NormalizedBlock(b) != b
  {
    var r := Rewrites(b, |b.children|);
    var j := r[0];
    assert j in r;
    KeepDigitsFixpoint(b.children[j].text);
    assert NormalizedBlock(b).children[j] != b.children[j];
  }

  /**
   * Filtering leaf by leaf is filtering the block's whole text: the joined
   * text of a normalized binary-code block is its joined text without the
   * characters outside {0, 1}.
   */
  lemma {:induction false} NormalizedText(b: Block)
    requires b.kind == BinaryCode
    ensures LeafTexts(NormalizedBlock(b).children) == KeepDigits(LeafTexts(b.children))
  {
    var cs := b.children;
    var ns := NormalizedBlock(b).children;
    var n := 0;
    while n < |cs|
      invariant 0 <= n <= |cs|
      invariant LeafTexts(ns[..n]) == KeepDigits(LeafTexts(cs[..n]))
    {
      assert cs[..n + 1] == cs[..n] + [cs[n]] && ns[..n + 1] == ns[..n] + [ns[n]];
      LeafTextsSnoc(cs[..n], cs[n]);
      LeafTextsSnoc(ns[..n], ns[n]);
      KeepDigitsAppend(LeafTexts(cs[..n]), cs[n].text);
      n := n + 1;
    }
    assert cs[..n] == cs && ns[..n] == ns;
  }

  /** A second pass over a normalized block writes nothing and changes nothing. */
  lemma {:induction false} NormalizeIdempotent(b: Block)
    ensures NormalizedBlock(NormalizedBlock(b)) == NormalizedBlock(b)
    ensures Rewrites(NormalizedBlock(b), |NormalizedBlock(b).children|) == []
  {
    var nb := NormalizedBlock(b);
    if b.kind == BinaryCode {
      forall j | 0 <= j < |nb.children| ensures NormalizedLeaf(nb.children[j]) == nb.children[j] {
        KeepDigitsIdempotent(b.children[j].text);
      }
      assert NormalizedBlock(nb).children == nb.children;
    }
    NoRewritesIffUnchanged(nb);
  }

  /** Normalizing the whole document twice gives what normalizing it once gives. */
  lemma {:induction false} NormalizedTwice(bs: seq<Block>)
    ensures Normalized(Normalized(bs)) == Normalized(bs)
  {
    forall i | 0 <= i < |bs| ensures Normalized(Normalized(bs))[i] == Normalized(bs)[i] {
      NormalizeIdempotent(bs[i]);
    }
  }

  /**
   * A document the custom pass has nothing left to do on: every leaf of
   * every binary-code block is binary. Slate normalizes when each transform
   * ends, so the editor's document is always settled.
   */
  predicate Settled(bs: seq<Block>) {
    forall i, j :: 0 <= i < |bs| && bs[i].kind == BinaryCode && 0 <= j < |bs[i].children| ==>
      IsBinary(bs[i].children[j].text)
  }

  /** Filtering leaves whose texts are binary changes nothing. */
  lemma DigitsOnlyBinary(b: Block)
    requires forall j :: 0 <= j < |b.children| ==> IsBinary(b.children[j].text)
    ensures DigitsOnly(b) == b
  {
    forall j | 0 <= j < |b.children| ensures NormalizedLeaf(b.children[j]) == b.children[j] {
      KeepDigitsFixpoint(b.children[j].text);
    }
    assert DigitsOnly(b).children == b.children;
  }

  /** The pass leaves a document as it is exactly when the document is settled. */
  lemma SettledNormalized(bs: seq<Block>)
    ensures Settled(bs) <==> Normalized(bs) == bs
  {
    if Settled(bs) {
      forall i | 0 <= i < |bs| ensures Normalized(bs)[i] == bs[i] {
        if bs[i].kind == BinaryCode {
          DigitsOnlyBinary(bs[i]);
        }
      }
    } else {
      var i, j :| 0 <= i < |bs| && bs[i].kind == BinaryCode && 0 <= j < |bs[i].children|
        && !IsBinary(bs[i].children[j].text);
      KeepDigitsFixpoint(bs[i].children[j].text);
      assert Normalized(bs)[i].children[j] != bs[i].children[j];
    }
  }

  /** After the pass the document is settled. */
  lemma NormalizedSettled(bs: seq<Block>)
    ensures Settled(Normalized(bs))
  {
    forall i | 0 <= i < |bs| && bs[i].kind == BinaryCode
      ensures forall j :: 0 <= j < |Normalized(bs)[i].children| ==> IsBinary(Normalized(bs)[i].children[j].text)
    {
      NormalizedIsBinary(bs[i]);
    }
  }

  /**
   * Unwrapping, wrapping and mark edits change neither a block's type nor its
   * texts, so the normalization after them finds nothing to do.
   */
  lemma TransformsKeepSettled(bs: seq<Block>, sel: Option<Range>, format: string, e: MarkEdit)
    requires Settled(bs)
    ensures Settled(Unwrapped(bs, sel, format)) && Settled(Wrapped(bs, sel, format)) && Settled(MarkEdited(bs, sel, e))
  {
  }

  /** Appending binary digits to the end of a block keeps the document settled. */
  lemma AppendKeepsSettled(bs: seq<Block>, i: nat, value: string)
    requires Settled(bs) && i < |bs| && IsBinary(value)
    ensures Settled(bs[i := AppendedAtEnd(bs[i], value)])
  {
    var b := bs[i];
    if b.kind == BinaryCode && b.children != [] {
      var last := |b.children| - 1;
      BinaryAppend(b.children[last].text, value);
    }
  }

  // ---------------------------------------------------------------------
  // isBlockActive and isMarkActive
  // ---------------------------------------------------------------------

  /** The element test of `isBlockActive`: a list wrapper matches through the block's list tag. */
  predicate Matches(b: Block, format: string, attr: BlockAttr) {
    match attr
    case AlignAttr => b.align == Some(format)
    case TypeAttr => b.kind == format || b.list == Some(format)
  }

  /** Which property a format is compared with. */
  function AttrFor(format: string): BlockAttr {
    if format in TextAlignTypes then AlignAttr else TypeAttr
  }

  /** The first index in `lo..hi` (inclusive, within the document) whose block satisfies `p`. */
  function FirstFrom(bs: seq<Block>, lo: nat, hi: nat, p: Block -> bool): (r: Option<nat>)
    ensures r.Some? ==> lo <= r.value <= hi && r.value < |bs| && p(bs[r.value])
    ensures r.Some? ==> forall j :: lo <= j < r.value ==> !p(bs[j])
    ensures r.None? ==> forall j :: lo <= j <= hi && j < |bs| ==> !p(bs[j])
    decreases |bs| - lo
  {
    if lo > hi || lo >= |bs| then None
    else if p(bs[lo]) then Some(lo)
    else FirstFrom(bs, lo + 1, hi, p)
  }

  /** The first selected block satisfying `p`, in document order, as `Editor.nodes` yields it. */
  function FirstMatch(bs: seq<Block>, sel: Option<Range>, p: Block -> bool): (r: Option<nat>)
    ensures r.Some? ==> r.value < |bs| && Selected(sel, r.value) && p(bs[r.value])
    ensures r.Some? ==> forall j: nat :: Selected(sel, j) && j < r.value ==> !p(bs[j])
    ensures r.None? ==> forall j: nat :: Selected(sel, j) && j < |bs| ==> !p(bs[j])
  {
    if sel.None? then None else FirstFrom(bs, sel.value.first, sel.value.last, p)
  }

  predicate IsBlockActive(bs: seq<Block>, sel: Option<Range>, format: string, attr: BlockAttr) {
    FirstMatch(bs, sel, b => Matches(b, format, attr)).Some?
  }

  /** `isBlockActive` holds exactly when some selected block matches; never without a selection. */
  lemma BlockActiveIff(bs: seq<Block>, sel: Option<Range>, format: string, attr: BlockAttr)
    ensures IsBlockActive(bs, sel, format, attr) <==>
      exists i :: 0 <= i < |bs| && Selected(sel, i) && Matches(bs[i], format, attr)
    ensures sel.None? ==> !IsBlockActive(bs, sel, format, attr)
  {
    var m := FirstMatch(bs, sel, b => Matches(b, format, attr));
    if m.Some? {
      assert Matches(bs[m.value], format, attr);
    }
  }

  /** `Editor.marks`: the marks of the first leaf of the selection. */
  function SelectionMarks(bs: seq<Block>, sel: Option<Range>): Option<map<string, bool>> {
    if sel.None? || sel.value.first >= |bs| || |bs[sel.value.first].children| == 0 then None
    else Some(bs[sel.value.first].children[0].marks)
  }

  predicate IsMarkActive(bs: seq<Block>, sel: Option<Range>, format: string) {
    var m := SelectionMarks(bs, sel);
    m.Some? && format in m.value && m.value[format] == true
  }

  /** A mark is active only when its value at the start of the selection is `true`. */
  lemma MarkActiveIff(bs: seq<Block>, sel: Option<Range>, format: string)
    requires WellFormed(bs) && Fits(bs, sel)
    ensures IsMarkActive(bs, sel, format) <==>
      sel.Some? && format in bs[sel.value.first].children[0].marks
      && bs[sel.value.first].children[0].marks[format] == true
  {
  }

  // ---------------------------------------------------------------------
  // Marks
  // ---------------------------------------------------------------------

  /** `Editor.addMark(format, true)` or `Editor.removeMark(format)`. */
  datatype MarkEdit = AddMark(format: string) | RemoveMark(format: string)

  function EditedLeaf(t: Leaf, e: MarkEdit): Leaf {
    match e
    case AddMark(f) => t.(marks := t.marks[f := true])
    case RemoveMark(f) => t.(marks := t.marks - {f})
  }

  function EditedBlock(b: Block, e: MarkEdit): Block {
    b.(children := seq(|b.children|, j requires 0 <= j < |b.children| => EditedLeaf(b.children[j], e)))
  }

  /** A mark edit applied to every leaf of every selected block. */
  function MarkEdited(bs: seq<Block>, sel: Option<Range>, e: MarkEdit): seq<Block> {
    seq(|bs|, i requires 0 <= i < |bs| => if Selected(sel, i) then EditedBlock(bs[i], e) else bs[i])
  }

  /** `toggleMark`. */
  function MarkToggled(bs: seq<Block>, sel: Option<Range>, format: string): seq<Block> {
    if IsMarkActive(bs, sel, format) then MarkEdited(bs, sel, RemoveMark(format))
    else MarkEdited(bs, sel, AddMark(format))
  }

  /**
   * Adding a mark sets it to `true` on every selected leaf, removing it unsets
   * it there; texts, block properties and the unselected blocks are kept.
   */
  lemma MarkEditEffect(bs: seq<Block>, sel: Option<Range>, e: MarkEdit, i: nat, j: nat)
    requires i < |bs| && j < |bs[i].children|
    ensures |MarkEdited(bs, sel, e)| == |bs|
    ensures !Selected(sel, i) ==> MarkEdited(bs, sel, e)[i] == bs[i]
    ensures Selected(sel, i) ==>
      var b := MarkEdited(bs, sel, e)[i];
      b.kind == bs[i].kind && b.align == bs[i].align && b.list == bs[i].list
      && |b.children| == |bs[i].children| && b.children[j].text == bs[i].children[j].text
      && (e.AddMark? ==> b.children[j].marks == bs[i].children[j].marks[e.format := true])
      && (e.RemoveMark? ==> b.children[j].marks == bs[i].children[j].marks - {e.format})
  {
  }

  /** `toggleMark` flips whether the mark is active. */
  lemma MarkToggleFlips(bs: seq<Block>, sel: Option<Range>, format: string)
    requires WellFormed(bs) && Fits(bs, sel) && sel.Some?
    ensures IsMarkActive(MarkToggled(bs, sel, format), sel, format) == !IsMarkActive(bs, sel, format)
  {
    var i := sel.value.first;
    assert Selected(sel, i);
  }

  /** The selected leaves agree on the mark: all set to `true`, or all unset. */
  predicate Uniform(bs: seq<Block>, sel: Option<Range>, format: string) {
    (forall i, j :: 0 <= i < |bs| && Selected(sel, i) && 0 <= j < |bs[i].children| ==>
      format in bs[i].children[j].marks && bs[i].children[j].marks[format] == true)
    || (forall i, j :: 0 <= i < |bs| && Selected(sel, i) && 0 <= j < |bs[i].children| ==>
      format !in bs[i].children[j].marks)
  }

  /** Toggling a mark twice restores whether it is active, and the document when the selection agrees on it. */
  lemma {:induction false} MarkToggleTwice(bs: seq<Block>, sel: Option<Range>, format: string)
    requires WellFormed(bs) && Fits(bs, sel) && sel.Some?
    ensures IsMarkActive(MarkToggled(MarkToggled(bs, sel, format), sel, format), sel, format)
      == IsMarkActive(bs, sel, format)
    ensures Uniform(bs, sel, format) ==> MarkToggled(MarkToggled(bs, sel, format), sel, format) == bs
  {
    var once := MarkToggled(bs, sel, format);
    MarkToggleFlips(bs, sel, format);
    MarkToggleFlips(once, sel, format);
    if Uniform(bs, sel, format) {
      var twice := MarkToggled(once, sel, format);
      forall i | 0 <= i < |bs| ensures twice[i] == bs[i] {
        if Selected(sel, i) {
          forall j | 0 <= j < |bs[i].children| ensures twice[i].children[j] == bs[i].children[j] {
            var m := bs[i].children[j].marks;
            if IsMarkActive(bs, sel, format) {
              assert format in m && m[format] == true by {
                var f := sel.value.first;
                assert Selected(sel, f);
              }
              assert (m - {format})[format := true] == m;
            } else {
              assert format !in m by {
                var f := sel.value.first;
                assert Selected(sel, f);
              }
              assert m[format := true] - {format} == m;
            }
          }
          assert twice[i].children == bs[i].children;
        }
      }
    }
  }

  // ---------------------------------------------------------------------
  // toggleBlock
  // ---------------------------------------------------------------------

  /** `newProperties` of `toggleBlock`. */
  function NewProperties(format: string, isActive: bool): Properties {
    if format in TextAlignTypes then AlignTo(if isActive then None else Some(format))
    else TypeTo(if isActive then Paragraph else if format in ListTypes then ListItem else format)
  }

  function WithBlockProperties(b: Block, p: Properties): Block {
    match p
    case AlignTo(a) => b.(align := a)
    case TypeTo(k) => b.(kind := k)
  }

  /** `setNodes` on the selected blocks. */
  function WithProperties(bs: seq<Block>, sel: Option<Range>, p: Properties): seq<Block> {
    seq(|bs|, i requires 0 <= i < |bs| => if Selected(sel, i) then WithBlockProperties(bs[i], p) else bs[i])
  }

  /** `unwrapNodes` of the list wrappers around the selection; skipped for an alignment format. */
  function Unwrapped(bs: seq<Block>, sel: Option<Range>, format: string): seq<Block> {
    if format in TextAlignTypes then bs
    else seq(|bs|, i requires 0 <= i < |bs| => if Selected(sel, i) then bs[i].(list := None) else bs[i])
  }

  /** `wrapNodes` of the selected blocks in a list element of type `format`. */
  function Wrapped(bs: seq<Block>, sel: Option<Range>, format: string): seq<Block> {
    seq(|bs|, i requires 0 <= i < |bs| => if Selected(sel, i) then bs[i].(list := Some(format)) else bs[i])
  }

  /**
   * `toggleBlock`: unwrap lists, set the new properties, then wrap for an
   * inactive list format. The normalization that ends `setNodes` filters the
   * leaves of a block it has just made a binary-code block; the other two
   * transforms leave a settled document settled.
   */
  function BlockToggled(bs: seq<Block>, sel: Option<Range>, format: string): seq<Block> {
    var isActive := IsBlockActive(bs, sel, format, AttrFor(format));
    var updated := Normalized(WithProperties(Unwrapped(bs, sel, format), sel, NewProperties(format, isActive)));
    if !isActive && format in ListTypes then Wrapped(updated, sel, format) else updated
  }

  /**
   * Toggling an alignment changes only `align` of the selected blocks: it is
   * cleared if the alignment was active and set to the format otherwise.
   */
  lemma ToggleAlignment(bs: seq<Block>, sel: Option<Range>, format: string)
    requires format in TextAlignTypes && Settled(bs)
    ensures var r := BlockToggled(bs, sel, format);
      |r| == |bs| && forall i :: 0 <= i < |bs| ==>
        r[i].kind == bs[i].kind && r[i].list == bs[i].list && r[i].children == bs[i].children
        && r[i].align == (if !Selected(sel, i) then bs[i].align
                          else if IsBlockActive(bs, sel, format, AlignAttr) then None
                          else Some(format))
  {
    var active := IsBlockActive(bs, sel, format, AlignAttr);
    var updated := WithProperties(bs, sel, NewProperties(format, active));
    assert Settled(updated);
    SettledNormalized(updated);
  }

  /**
   * Toggling a type: the selected blocks become paragraphs if the format was
   * active, list items if it is a list format and the format otherwise; they
   * are unwrapped from any list, and wrapped only for a list format that was
   * not active. A block made a binary-code block has its leaves filtered;
   * otherwise the leaves are kept. Alignment, marks and unselected blocks
   * are kept.
   */
  lemma ToggleType(bs: seq<Block>, sel: Option<Range>, format: string)
    requires format !in TextAlignTypes && Settled(bs)
    ensures var r := BlockToggled(bs, sel, format);
      var active := IsBlockActive(bs, sel, format, TypeAttr);
      var kind := if active then Paragraph else if format in ListTypes then ListItem else format;
      |r| == |bs| && forall i :: 0 <= i < |bs| ==>
        if !Selected(sel, i) then r[i] == bs[i]
        else
          r[i].align == bs[i].align && r[i].kind == kind
          && r[i].list == (if !active && format in ListTypes then Some(format) else None)
          && |r[i].children| == |bs[i].children|
          && forall j :: 0 <= j < |bs[i].children| ==>
               r[i].children[j].marks == bs[i].children[j].marks
               && r[i].children[j].text ==
                    if kind == BinaryCode then KeepDigits(bs[i].children[j].text) else bs[i].children[j].text
  {
    var active := IsBlockActive(bs, sel, format, TypeAttr);
    var updated := WithProperties(Unwrapped(bs, sel, format), sel, NewProperties(format, active));
    forall i | 0 <= i < |bs| && !Selected(sel, i) ensures Normalized(updated)[i] == bs[i] {
      if bs[i].kind == BinaryCode {
        DigitsOnlyBinary(bs[i]);
      }
    }
  }

  /** Toggling an alignment flips whether it is active on a non-empty selection. */
  lemma {:induction false} ToggleAlignmentFlips(bs: seq<Block>, sel: Option<Range>, format: string)
    requires format in TextAlignTypes && Fits(bs, sel) && sel.Some? && Settled(bs)
    ensures IsBlockActive(BlockToggled(bs, sel, format), sel, format, AlignAttr)
      == !IsBlockActive(bs, sel, format, AlignAttr)
  {
    var r := BlockToggled(bs, sel, format);
    ToggleAlignment(bs, sel, format);
    BlockActiveIff(bs, sel, format, AlignAttr);
    BlockActiveIff(r, sel, format, AlignAttr);
    var f := sel.value.first;
    assert Selected(sel, f);
    if !IsBlockActive(bs, sel, format, AlignAttr) {
      assert Matches(r[f], format, AlignAttr);
    }
  }

  /** A block that neither is nor sits in a list and has no other type than paragraph. */
  predicate IsPlainParagraph(b: Block) {
    b.kind == Paragraph && b.list.None?
  }

  /**
   * Toggling "binary-code" on a selection of plain paragraphs makes them
   * binary-code blocks with their leaves filtered.
   */
  lemma BinaryCodeOn(bs: seq<Block>, sel: Option<Range>)
    requires Fits(bs, sel) && sel.Some? && Settled(bs)
    requires forall i :: 0 <= i < |bs| && Selected(sel, i) ==> IsPlainParagraph(bs[i])
    ensures var once := BlockToggled(bs, sel, BinaryCode);
      |once| == |bs|
      && (forall i :: 0 <= i < |bs| && !Selected(sel, i) ==> once[i] == bs[i])
      && forall i :: 0 <= i < |bs| && Selected(sel, i) ==> once[i] == DigitsOnly(bs[i]).(kind := BinaryCode)
  {
    var once := BlockToggled(bs, sel, BinaryCode);
    assert BinaryCode !in TextAlignTypes && BinaryCode !in ListTypes;
    BlockActiveIff(bs, sel, BinaryCode, TypeAttr);
    assert !IsBlockActive(bs, sel, BinaryCode, TypeAttr);
    ToggleType(bs, sel, BinaryCode);
    forall i | 0 <= i < |bs| && Selected(sel, i) ensures once[i] == DigitsOnly(bs[i]).(kind := BinaryCode) {
      assert once[i].children == DigitsOnly(bs[i]).children;
    }
  }

  /**
   * Toggling "binary-code" twice turns the selected plain paragraphs back
   * into paragraphs with their leaves filtered; the document comes back
   * exactly when the selected leaves were binary.
   */
  lemma {:induction false} BinaryCodeRoundTrip(bs: seq<Block>, sel: Option<Range>)
    requires Fits(bs, sel) && sel.Some? && Settled(bs)
    requires forall i :: 0 <= i < |bs| && Selected(sel, i) ==> IsPlainParagraph(bs[i])
    ensures var twice := BlockToggled(BlockToggled(bs, sel, BinaryCode), sel, BinaryCode);
      |twice| == |bs| && forall i :: 0 <= i < |bs| ==>
        twice[i] == if Selected(sel, i) then DigitsOnly(bs[i]) else bs[i]
    ensures (forall i, j :: 0 <= i < |bs| && Selected(sel, i) && 0 <= j < |bs[i].children| ==>
               IsBinary(bs[i].children[j].text))
      ==> BlockToggled(BlockToggled(bs, sel, BinaryCode), sel, BinaryCode) == bs
  {
    var once := BlockToggled(bs, sel, BinaryCode);
    BinaryCodeOn(bs, sel);
    assert Settled(once) by {
      forall i | 0 <= i < |bs| && Selected(sel, i)
        ensures forall j :: 0 <= j < |once[i].children| ==> IsBinary(once[i].children[j].text)
      {
        NormalizedIsBinary(bs[i].(kind := BinaryCode));
      }
    }
    assert BinaryCode !in TextAlignTypes;
    BlockActiveIff(once, sel, BinaryCode, TypeAttr);
    var f := sel.value.first;
    assert Selected(sel, f) && Matches(once[f], BinaryCode, TypeAttr);
    ToggleType(once, sel, BinaryCode);
    var twice := BlockToggled(once, sel, BinaryCode);
    forall i | 0 <= i < |bs| ensures twice[i] == if Selected(sel, i) then DigitsOnly(bs[i]) else bs[i] {
      if Selected(sel, i) {
        assert twice[i].children == DigitsOnly(bs[i]).children;
      }
    }
    if forall i, j :: 0 <= i < |bs| && Selected(sel, i) && 0 <= j < |bs[i].children| ==> IsBinary(bs[i].children[j].text) {
      forall i | 0 <= i < |bs| ensures twice[i] == bs[i] {
        if Selected(sel, i) {
          DigitsOnlyBinary(bs[i]);
        }
      }
    }
  }

  // ---------------------------------------------------------------------
  // handleOnKeyDown
  // ---------------------------------------------------------------------

  /** A key press: its `key`, and the combination it denotes in the hotkey notation. */
  datatype KeyEvent = KeyEvent(key: string, combo: string)

  /** `HOTKEYS`, in declaration order. */
  const Hotkeys: seq<(string, string)> := [
    ("mod+b", "bold"), ("mod+i", "italic"), ("mod+u", "underline"), ("mod+`", "code"),
    ("mod+shift+b", BinaryCode)
  ]

  /** The text of the leaf where the selection starts. */
  function StartLeafText(bs: seq<Block>, sel: Option<Range>): Option<string> {
    if sel.None? || sel.value.first >= |bs| || |bs[sel.value.first].children| == 0 then None
    else Some(bs[sel.value.first].children[0].text)
  }

  /** A space typed on a line that reads exactly "```". */
  predicate StartsShortcut(bs: seq<Block>, sel: Option<Range>, ev: KeyEvent) {
    ev.key == " " && StartLeafText(bs, sel) == Some("```")
  }

  /** The shortcut's `setNodes`: every selected paragraph becomes a binary-code block. */
  function ShortcutApplied(bs: seq<Block>, sel: Option<Range>): seq<Block> {
    seq(|bs|, i requires 0 <= i < |bs| =>
      if Selected(sel, i) && bs[i].kind == Paragraph then bs[i].(kind := BinaryCode) else bs[i])
  }

  /** One entry of the hotkey loop: toggle its format when the event matches its key. */
  function HotkeyApplied(bs: seq<Block>, sel: Option<Range>, ev: KeyEvent, entry: (string, string)): seq<Block> {
    if ev.combo != entry.0 then bs
    else if entry.1 == BinaryCode then BlockToggled(bs, sel, entry.1)
    else MarkToggled(bs, sel, entry.1)
  }

  /** The hotkey loop over the first `n` entries of the table. */
  function HotkeysApplied(bs: seq<Block>, sel: Option<Range>, ev: KeyEvent, n: nat): seq<Block>
    requires n <= |Hotkeys|
  {
    if n == 0 then bs else HotkeyApplied(HotkeysApplied(bs, sel, ev, n - 1), sel, ev, Hotkeys[n - 1])
  }

  /** The document after `handleOnKeyDown`; the shortcut's `setNodes` ends with the normalization. */
  function KeyDownResult(bs: seq<Block>, sel: Option<Range>, ev: KeyEvent): seq<Block> {
    if sel.None? then bs
    else if StartsShortcut(bs, sel, ev) then Normalized(ShortcutApplied(bs, sel))
    else HotkeysApplied(bs, sel, ev, |Hotkeys|)
  }

  /**
   * The hotkey table dispatches: "mod+shift+b" toggles the binary-code block,
   * each other hotkey toggles its mark, and any other key leaves the document
   * alone; nothing happens without a selection.
   */
  lemma {:induction false} KeyDownDispatch(bs: seq<Block>, sel: Option<Range>, ev: KeyEvent)
    ensures sel.None? ==> KeyDownResult(bs, sel, ev) == bs
    ensures sel.Some? && !StartsShortcut(bs, sel, ev) ==>
      (ev.combo == "mod+shift+b" ==> KeyDownResult(bs, sel, ev) == BlockToggled(bs, sel, BinaryCode))
      && (ev.combo == "mod+b" ==> KeyDownResult(bs, sel, ev) == MarkToggled(bs, sel, "bold"))
      && (ev.combo == "mod+i" ==> KeyDownResult(bs, sel, ev) == MarkToggled(bs, sel, "italic"))
      && (ev.combo == "mod+u" ==> KeyDownResult(bs, sel, ev) == MarkToggled(bs, sel, "underline"))
      && (ev.combo == "mod+`" ==> KeyDownResult(bs, sel, ev) == MarkToggled(bs, sel, "code"))
      && (ev.combo !in {"mod+b", "mod+i", "mod+u", "mod+`", "mod+shift+b"} ==> KeyDownResult(bs, sel, ev) == bs)
  {
    var h0 := HotkeysApplied(bs, sel, ev, 0);
    var h1 := HotkeysApplied(bs, sel, ev, 1);
    var h2 := HotkeysApplied(bs, sel, ev, 2);
    var h3 := HotkeysApplied(bs, sel, ev, 3);
    var h4 := HotkeysApplied(bs, sel, ev, 4);
    var h5 := HotkeysApplied(bs, sel, ev, 5);
    assert h0 == bs;
    assert h1 == HotkeyApplied(h0, sel, ev, ("mod+b", "bold"));
    assert h2 == HotkeyApplied(h1, sel, ev, ("mod+i", "italic"));
    assert h3 == HotkeyApplied(h2, sel, ev, ("mod+u", "underline"));
    assert h4 == HotkeyApplied(h3, sel, ev, ("mod+`", "code"));
    assert h5 == HotkeyApplied(h4, sel, ev, ("mod+shift+b", BinaryCode));
  }

  /**
   * The shortcut, with the normalization that follows it, turns exactly the
   * selected paragraphs into binary-code blocks with their leaves filtered;
   * everything else is kept.
   */
  lemma ShortcutEffect(bs: seq<Block>, sel: Option<Range>)
    requires Settled(bs)
    ensures var r := Normalized(ShortcutApplied(bs, sel));
      |r| == |bs|
      && forall i :: 0 <= i < |bs| ==>
        var converted := Selected(sel, i) && bs[i].kind == Paragraph;
        r[i].align == bs[i].align && r[i].list == bs[i].list
        && r[i].kind == (if converted then BinaryCode else bs[i].kind)
        && |r[i].children| == |bs[i].children|
        && forall j :: 0 <= j < |bs[i].children| ==>
             r[i].children[j].marks == bs[i].children[j].marks
             && r[i].children[j].text == if converted then KeepDigits(bs[i].children[j].text) else bs[i].children[j].text
  {
    var updated := ShortcutApplied(bs, sel);
    forall i | 0 <= i < |bs| && !(Selected(sel, i) && bs[i].kind == Paragraph)
      ensures Normalized(updated)[i] == bs[i]
    {
      if bs[i].kind == BinaryCode {
        DigitsOnlyBinary(bs[i]);
      }
    }
  }

  /** Typed on a paragraph, the shortcut leaves its "```" line empty once normalized. */
  lemma ShortcutEmptiesLine(bs: seq<Block>, sel: Option<Range>)
    requires WellFormed(bs) && Fits(bs, sel) && sel.Some?
    requires StartLeafText(bs, sel) == Some("```") && bs[sel.value.first].kind == Paragraph
    ensures Normalized(ShortcutApplied(bs, sel))[sel.value.first].children[0].text == ""
  {
    assert KeepDigits("```") == "" by {
      assert "```"[1..] == "``" && "``"[1..] == "`" && "`"[1..] == "";
    }
  }

  /** The custom pass leaves every binary-code block binary and every other block as it is. */
  lemma NormalizedDocument(bs: seq<Block>)
    ensures |Normalized(bs)| == |bs|
    ensures forall i :: 0 <= i < |bs| && Normalized(bs)[i].kind == BinaryCode ==>
      forall j :: 0 <= j < |Normalized(bs)[i].children| ==> IsBinary(Normalized(bs)[i].children[j].text)
    ensures forall i :: 0 <= i < |bs| && bs[i].kind != BinaryCode ==> Normalized(bs)[i] == bs[i]
  {
  }

  /** A block with `value` inserted at its end point, the end of its last leaf. */
  function AppendedAtEnd(b: Block, value: string): Block {
    if b.children == [] then b
    else
      var last := |b.children| - 1;
      b.(children := b.children[last := b.children[last].(text := b.children[last].text + value)])
  }

  /**
   * Inserting at the end of a block appends `value` to the block's text and
   * changes nothing else: the leaves, their marks and the block's properties stay.
   */
  lemma {:induction false} AppendedAtEndText(b: Block, value: string)
    requires |b.children| > 0
    ensures var r := AppendedAtEnd(b, value);
      LeafTexts(r.children) == LeafTexts(b.children) + value
      && r.kind == b.kind && r.align == b.align && r.list == b.list
      && |r.children| == |b.children|
      && (forall j :: 0 <= j < |b.children| ==> r.children[j].marks == b.children[j].marks)
      && (forall j :: 0 <= j < |b.children| - 1 ==> r.children[j] == b.children[j])
  {
    var r := AppendedAtEnd(b, value);
    var n := |b.children|;
    assert r.children[..n - 1] == b.children[..n - 1];
    assert LeafTexts(r.children) == LeafTexts(r.children[..n - 1]) + r.children[n - 1].text;
  }

  /** The text of the leaves, one leaf longer. */
  lemma LeafTextsSnoc(cs: seq<Leaf>, t: Leaf)
    ensures LeafTexts(cs + [t]) == LeafTexts(cs) + t.text
  {
    assert (cs + [t])[..|cs|] == cs;
  }
}
