/**
 * The editor of src/Richtext.tsx as an object whose document changes in
 * place: `normalizeNode`'s loop over the leaves of a binary-code block,
 * `toggleBlock`'s sequence of transforms, `toggleMark`, and
 * `handleOnKeyDown`'s loop over the hotkey table. Each method is proved
 * against the function of the Document module that specifies it. As in
 * Slate, every transform ends with the normalization, so the document the
 * editor holds between transforms is always settled.
 */
module Richtext {
  import opened Wrappers
  import opened Digits
  import opened Document

  class Editor {
    var blocks: seq<Block>
    var selection: Option<Range>

    /** The document is well formed and the selection lies inside it. */
    predicate Consistent()
      reads this
    {
      WellFormed(blocks) && Fits(blocks, selection)
    }

    /** Between transforms the document is also settled. */
    predicate Valid()
      reads this
    {
      Consistent() && Settled(blocks)
    }

    /** The initial value is taken as it is; it is settled only if it was given settled. */
    constructor(initial: seq<Block>, sel: Option<Range>)
      requires WellFormed(initial) && Fits(initial, sel)
      ensures Consistent() && blocks == initial && selection == sel
      ensures Valid() <==> Settled(initial)
    {
      blocks := initial;
      selection := sel;
    }

    /** `Transforms.insertText` at a leaf's path: the leaf's whole text is replaced. */
    method SetLeafText(i: nat, j: nat, text: string)
      requires Consistent() && i < |blocks| && j < |blocks[i].children|
      modifies this
      ensures Consistent() && selection == old(selection)
      ensures blocks == old(blocks)[i := old(blocks)[i].(children := old(blocks)[i].children[j := old(blocks)[i].children[j].(text := text)])]
    {
      var b := blocks[i];
      blocks := blocks[i := b.(children := b.children[j := b.children[j].(text := text)])];
    }

    /**
     * The custom `normalizeNode` on the block at `i`: on a binary-code block,
     * each leaf whose filtered text differs is rewritten with it. `written`
     * lists the leaves rewritten, in order.
     */
    method NormalizeNode(i: nat) returns (written: seq<nat>)
      requires Consistent() && i < |blocks|
      modifies this
      ensures Consistent() && selection == old(selection)
      ensures blocks == old(blocks)[i := NormalizedBlock(old(blocks)[i])]
      ensures written == Rewrites(old(blocks)[i], |old(blocks)[i].children|)
    {
      written := [];
      var b := blocks[i];
      if b.kind == BinaryCode {
        var j := 0;
        while j < |b.children|
          invariant 0 <= j <= |b.children|
          invariant Consistent() && selection == old(selection) && |blocks| == |old(blocks)|
          invariant forall k :: 0 <= k < |blocks| && k != i ==> blocks[k] == old(blocks)[k]
          invariant blocks[i].kind == b.kind && blocks[i].align == b.align && blocks[i].list == b.list
          invariant |blocks[i].children| == |b.children|
          invariant forall k :: 0 <= k < j ==> blocks[i].children[k] == NormalizedLeaf(b.children[k])
          invariant forall k :: j <= k < |b.children| ==> blocks[i].children[k] == b.children[k]
          invariant written == Rewrites(b, j)
        {
          var child := blocks[i].children[j];
          var newText := KeepDigits(child.text);
          if newText != child.text {
            SetLeafText(i, j, newText);
            written := written + [j];
          }
          j := j + 1;
        }
        assert blocks[i].children == NormalizedBlock(b).children;
      } else {
        NormalizedFrame(b);
      }
      assert blocks[i] == NormalizedBlock(b);
    }

    /** Slate normalizes every dirty node; here, every block in turn. */
    method Normalize()
      requires Consistent()
      modifies this
      ensures Valid() && selection == old(selection)
      ensures blocks == Normalized(old(blocks))
    {
      var i := 0;
      while i < |blocks|
        invariant 0 <= i <= |blocks| == |old(blocks)|
        invariant Consistent() && selection == old(selection)
        invariant forall k :: 0 <= k < i ==> blocks[k] == NormalizedBlock(old(blocks)[k])
        invariant forall k :: i <= k < |blocks| ==> blocks[k] == old(blocks)[k]
      {
        var _ := NormalizeNode(i);
        i := i + 1;
      }
      NormalizedSettled(old(blocks));
    }

    /** `Transforms.unwrapNodes` of the list elements around the selection. */
    method UnwrapNodes(format: string)
      requires Valid()
      modifies this
      ensures Valid() && selection == old(selection)
      ensures blocks == Unwrapped(old(blocks), selection, format)
    {
      TransformsKeepSettled(blocks, selection, format, MarkEdit.AddMark(format));
      blocks := Unwrapped(blocks, selection, format);
      SettledNormalized(blocks);
      Normalize();
    }

    /** `Transforms.setNodes` on the selected blocks. */
    method SetNodes(p: Properties)
      requires Valid()
      modifies this
      ensures Valid() && selection == old(selection)
      ensures blocks == Normalized(WithProperties(old(blocks), selection, p))
    {
      blocks := WithProperties(blocks, selection, p);
      Normalize();
    }

    /** `Transforms.wrapNodes` of the selected blocks in a list element. */
    method WrapNodes(format: string)
      requires Valid()
      modifies this
      ensures Valid() && selection == old(selection)
      ensures blocks == Wrapped(old(blocks), selection, format)
    {
      TransformsKeepSettled(blocks, selection, format, MarkEdit.AddMark(format));
      blocks := Wrapped(blocks, selection, format);
      SettledNormalized(blocks);
      Normalize();
    }

    /** `toggleBlock`. */
    method ToggleBlock(format: string)
      requires Valid()
      modifies this
      ensures Valid() && selection == old(selection)
      ensures blocks == BlockToggled(old(blocks), selection, format)
    {
      var isActive := IsBlockActive(blocks, selection, format, AttrFor(format));
      var isList := format in ListTypes;
      UnwrapNodes(format);
      SetNodes(NewProperties(format, isActive));
      if !isActive && isList {
        WrapNodes(format);
      }
    }

    /** `Editor.addMark(format, true)` on an expanded selection. */
    method AddMark(format: string)
      requires Valid()
      modifies this
      ensures Valid() && selection == old(selection)
      ensures blocks == MarkEdited(old(blocks), selection, MarkEdit.AddMark(format))
    {
      TransformsKeepSettled(blocks, selection, format, MarkEdit.AddMark(format));
      blocks := MarkEdited(blocks, selection, MarkEdit.AddMark(format));
      SettledNormalized(blocks);
      Normalize();
    }

    /** `Editor.removeMark(format)` on an expanded selection. */
    method RemoveMark(format: string)
      requires Valid()
      modifies this
      ensures Valid() && selection == old(selection)
      ensures blocks == MarkEdited(old(blocks), selection, MarkEdit.RemoveMark(format))
    {
      TransformsKeepSettled(blocks, selection, format, MarkEdit.RemoveMark(format));
      blocks := MarkEdited(blocks, selection, MarkEdit.RemoveMark(format));
      SettledNormalized(blocks);
      Normalize();
    }

    /** `toggleMark`. */
    method ToggleMark(format: string)
      requires Valid()
      modifies this
      ensures Valid() && selection == old(selection)
      ensures blocks == MarkToggled(old(blocks), selection, format)
    {
      if IsMarkActive(blocks, selection, format) {
        RemoveMark(format);
      } else {
        AddMark(format);
      }
    }

    /**
     * `handleOnKeyDown`: nothing without a selection; the "```" shortcut;
     * otherwise the loop over the hotkey table.
     */
    method HandleKeyDown(ev: KeyEvent)
      requires Valid()
      modifies this
      ensures Valid() && selection == old(selection)
      ensures blocks == KeyDownResult(old(blocks), selection, ev)
    {
      if selection.None? {
        return;
      }
      if ev.key == " " && StartLeafText(blocks, selection) == Some("```") {
        blocks := ShortcutApplied(blocks, selection);
        Normalize();
        return;
      }
      var k := 0;
      while k < |Hotkeys|
        invariant 0 <= k <= |Hotkeys|
        invariant Valid() && selection == old(selection)
        invariant blocks == HotkeysApplied(old(blocks), selection, ev, k)
      {
        ApplyHotkey(ev, Hotkeys[k]);
        k := k + 1;
      }
    }

    /** One entry of the hotkey table: "binary-code" toggles a block, the others a mark. */
    method ApplyHotkey(ev: KeyEvent, entry: (string, string))
      requires Valid()
      modifies this
      ensures Valid() && selection == old(selection)
      ensures blocks == HotkeyApplied(old(blocks), selection, ev, entry)
    {
      var (hotkey, mark) := entry;
      if ev.combo == hotkey {
        if mark == BinaryCode {
          ToggleBlock(mark);
        } else {
          ToggleMark(mark);
        }
      }
    }

    /**
     * `Transforms.insertText(value, { at: Editor.end(path) })` for the block
     * at `i`, followed by the normalization; binary digits appended to a
     * settled document need no rewriting.
     */
    method InsertAtBlockEnd(i: nat, value: string)
      requires Valid() && i < |blocks|
      modifies this
      ensures Valid() && selection == old(selection)
      ensures blocks == Normalized(old(blocks)[i := AppendedAtEnd(old(blocks)[i], value)])
      ensures IsBinary(value) ==> blocks == old(blocks)[i := AppendedAtEnd(old(blocks)[i], value)]
    {
      var b := blocks[i];
      var last := |b.children| - 1;
      SetLeafText(i, last, b.children[last].text + value);
      if IsBinary(value) {
        AppendKeepsSettled(old(blocks), i, value);
        SettledNormalized(blocks);
      }
      Normalize();
    }
  }
}
