/** The state of the `DashboardBuilder` component in
    components/DashboardBuilder.tsx and the event handlers that replace it:
    CSV upload, adding, editing, updating and deleting blocks, and the drag
    reorder. */
module Builder {
  import opened Wrappers
  import opened Csv
  import opened Blocks

  /** `blocksCopy.splice(d, 1)` followed by `blocksCopy.splice(t, 0, item)` on
      an array: the elements between the two positions shift by one place
      towards `d`, and the taken element is written at `t`. */
  method SpliceMove<T>(a: array<T>, d: nat, t: nat)
    requires d < a.Length && t < a.Length
    modifies a
    ensures a[..] == Moved(old(a[..]), d, t)
  {
    ghost var s := a[..];
    var item := a[d];
    var k := d;
    if d < t {
      while k < t
        invariant d <= k <= t
        invariant forall j :: 0 <= j < d || k <= j < a.Length ==> a[j] == s[j]
        invariant forall j :: d <= j < k ==> a[j] == s[j + 1]
      {
        a[k] := a[k + 1];
        k := k + 1;
      }
    } else {
      while k > t
        invariant t <= k <= d
        invariant forall j :: 0 <= j <= k || d < j < a.Length ==> a[j] == s[j]
        invariant forall j :: k < j <= d ==> a[j] == s[j - 1]
      {
        a[k] := a[k - 1];
        k := k - 1;
      }
    }
    a[t] := item;
    forall j | 0 <= j < a.Length
      ensures a[j] == Moved(s, d, t)[j]
    {
      MovedAt(s, d, t, j);
    }
  }

  class DashboardBuilder {
    var data: seq<Row>
    var columns: seq<string>
    var blocks: seq<Block>
    /** The id of the block being dragged; `None` is the initial `null`. */
    var draggedBlock: Option<int>

    constructor()
      ensures data == [] && columns == [] && blocks == [] && draggedBlock == None
    {
      data := [];
      columns := [];
      blocks := [];
      draggedBlock := None;
    }

    /** `reader.onload`: the rows and columns of the uploaded text replace the
        previous ones; the blocks are kept. */
    method Upload(text: string)
      modifies this
      ensures data == Parse(text).rows && columns == Parse(text).columns
      ensures blocks == old(blocks) && draggedBlock == old(draggedBlock)
    {
      var table := Ingest(text);
      data := table.rows;
      columns := table.columns;
    }

    /** `addBlock(type)`, with `Date.now()` passed in as `now`. */
    method AddBlock(kind: Kind, now: int)
      modifies this
      ensures blocks == old(blocks) + [NewBlock(kind, now, columns)]
      ensures data == old(data) && columns == old(columns) && draggedBlock == old(draggedBlock)
    {
      blocks := blocks + [NewBlock(kind, now, columns)];
    }

    /** `handleDragStart(blockId)` */
    method DragStart(id: int)
      modifies this
      ensures draggedBlock == Some(id)
      ensures data == old(data) && columns == old(columns) && blocks == old(blocks)
    {
      draggedBlock := Some(id);
    }

    /** Whether a drag over `target` reorders: `!draggedBlock` holds for
        `null` and for the falsy id 0, and a block over itself does nothing. */
    predicate Reorders(target: int)
      reads this
    {
      draggedBlock.Some? && draggedBlock.value != 0 && draggedBlock.value != target
    }

    /** `handleDragOver(e, blockId)`: the dragged block is taken out of a copy
        of the list and inserted at the target's index. */
    method DragOver(target: int)
      requires Reorders(target) ==> HasId(blocks, draggedBlock.value) && HasId(blocks, target)
      modifies this
      ensures data == old(data) && columns == old(columns) && draggedBlock == old(draggedBlock)
      ensures !old(Reorders(target)) ==> blocks == old(blocks)
      ensures old(Reorders(target)) ==>
        blocks == Moved(old(blocks), IndexOf(old(blocks), draggedBlock.value).value, IndexOf(old(blocks), target).value)
    {
      if draggedBlock.None? || draggedBlock.value == 0 || draggedBlock.value == target {
        return;
      }
      var current := blocks;
      var copy := new Block[|current|](i requires 0 <= i < |current| => current[i]);
      assert copy[..] == current;
      var d := IndexOf(current, draggedBlock.value).value;
      var t := IndexOf(current, target).value;
      SpliceMove(copy, d, t);
      assert copy[..] == Moved(current, d, t);
      blocks := copy[..];
    }

    /** `toggleEditMode(blockId)` */
    method ToggleEditMode(id: int)
      modifies this
      ensures blocks == ToggleEdit(old(blocks), id)
      ensures data == old(data) && columns == old(columns) && draggedBlock == old(draggedBlock)
    {
      blocks := ToggleEdit(blocks, id);
    }

    /** `updateBlockContent(blockId, newContent)`; the chart selects call it
        with the block's settings and one field replaced. */
    method UpdateBlockContent(id: int, content: Content)
      modifies this
      ensures blocks == UpdateContent(old(blocks), id, content)
      ensures data == old(data) && columns == old(columns) && draggedBlock == old(draggedBlock)
    {
      blocks := UpdateContent(blocks, id, content);
    }

    /** The delete button: `setBlocks(blocks.filter(b => b.id !== block.id))`. */
    method DeleteBlock(id: int)
      modifies this
      ensures blocks == Delete(old(blocks), id)
      ensures data == old(data) && columns == old(columns) && draggedBlock == old(draggedBlock)
    {
      blocks := Delete(blocks, id);
    }
  }
}
