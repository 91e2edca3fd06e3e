/** The blocks of components/DashboardBuilder.tsx and the pure operations the
    handlers apply to the block list: `map` for the edit flag and the content,
    `filter` for delete, `findIndex` for the drag targets, and the
    remove-then-insert reorder that `splice` performs. */
module Blocks {
  import opened Wrappers

  datatype Kind = TextBlock | ChartBlock

  datatype ChartType = LineChart | ScatterChart

  /** A text block holds its markdown source; a chart block holds its chart
      settings. */
  datatype Content =
    | Markdown(text: string)
    | Chart(chartType: ChartType, xAxis: string, yAxis: string)

  datatype Block = Block(id: int, kind: Kind, content: Content, isEditing: bool)

  /** The text a new text block starts with. */
  const Placeholder: string :=
    "# New Text Block\n\nStart typing your content here...\n\n- Use **markdown** formatting\n- Create _italic_ text\n-"

  /** `columns[i] || ''`: the column name, or '' when there is none. */
  function ColumnOr(columns: seq<string>, i: nat): (r: string)
    ensures i < |columns| ==> r == columns[i]
    ensures i >= |columns| ==> r == ""
  {
    if i < |columns| then columns[i] else ""
  }

  /** The block `addBlock(type)` creates, with the fresh id passed in. */
  function NewBlock(kind: Kind, id: int, columns: seq<string>): (b: Block)
    ensures b.id == id && b.kind == kind
    ensures b.isEditing <==> kind == TextBlock
    ensures kind == TextBlock ==> b.content == Markdown(Placeholder)
    ensures kind == ChartBlock ==> b.content.Chart? && b.content.chartType == LineChart
    ensures kind == ChartBlock ==> b.content.xAxis == ColumnOr(columns, 0) && b.content.yAxis == ColumnOr(columns, 1)
  {
    match kind
    case TextBlock => Block(id, kind, Markdown(Placeholder), true)
    case ChartBlock => Block(id, kind, Chart(LineChart, ColumnOr(columns, 0), ColumnOr(columns, 1)), false)
  }

  // ---------------------------------------------------------------------
  // toggleEditMode, updateBlockContent, delete

  /** `blocks.map(b => b.id === id ? { ...b, isEditing: !b.isEditing } : b)` */
  function ToggleEdit(blocks: seq<Block>, id: int): (r: seq<Block>)
    ensures |r| == |blocks|
    ensures forall i :: 0 <= i < |r| ==>
      r[i].id == blocks[i].id && r[i].kind == blocks[i].kind && r[i].content == blocks[i].content
    ensures forall i :: 0 <= i < |r| ==> (r[i].isEditing != blocks[i].isEditing <==> blocks[i].id == id)
  {
    seq(|blocks|, i requires 0 <= i < |blocks| =>
      if blocks[i].id == id then blocks[i].(isEditing := !blocks[i].isEditing) else blocks[i])
  }

  /** Toggling twice restores the list. */
  lemma ToggleTwice(blocks: seq<Block>, id: int)
    ensures ToggleEdit(ToggleEdit(blocks, id), id) == blocks
  {
    var r := ToggleEdit(ToggleEdit(blocks, id), id);
    assert forall i :: 0 <= i < |r| ==> r[i] == blocks[i];
  }

  /** `blocks.map(b => b.id === id ? { ...b, content: c } : b)` */
  function UpdateContent(blocks: seq<Block>, id: int, c: Content): (r: seq<Block>)
    ensures |r| == |blocks|
    ensures forall i :: 0 <= i < |r| ==>
      r[i].id == blocks[i].id && r[i].kind == blocks[i].kind && r[i].isEditing == blocks[i].isEditing
    ensures forall i :: 0 <= i < |r| ==> r[i].content == if blocks[i].id == id then c else blocks[i].content
  {
    seq(|blocks|, i requires 0 <= i < |blocks| =>
      if blocks[i].id == id then blocks[i].(content := c) else blocks[i])
  }

  /** Of two updates of the same block the later wins. */
  lemma UpdateTwice(blocks: seq<Block>, id: int, c: Content, d: Content)
    ensures UpdateContent(UpdateContent(blocks, id, c), id, d) == UpdateContent(blocks, id, d)
  {
    var r, q := UpdateContent(UpdateContent(blocks, id, c), id, d), UpdateContent(blocks, id, d);
    assert forall i :: 0 <= i < |r| ==> r[i] == q[i];
  }

  predicate HasId(blocks: seq<Block>, id: int) {
    exists i :: 0 <= i < |blocks| && blocks[i].id == id
  }

  /** A list without the id is left as it was by toggling and by updating. */
  lemma AbsentIdUnchanged(blocks: seq<Block>, id: int, c: Content)
    requires !HasId(blocks, id)
    ensures ToggleEdit(blocks, id) == blocks
    ensures UpdateContent(blocks, id, c) == blocks
  {
    var r, q := ToggleEdit(blocks, id), UpdateContent(blocks, id, c);
    assert forall i :: 0 <= i < |r| ==> r[i] == blocks[i];
    assert forall i :: 0 <= i < |q| ==> q[i] == blocks[i];
  }

  /** `blocks.filter(b => b.id !== id)` */
  function Delete(blocks: seq<Block>, id: int): (r: seq<Block>)
    ensures |r| <= |blocks|
  {
    if blocks == [] then []
    else if blocks[0].id != id then [blocks[0]] + Delete(blocks[1..], id)
    else Delete(blocks[1..], id)
  }

  /** Exactly the blocks with a different id survive. */
  lemma {:induction false} DeleteMember(blocks: seq<Block>, id: int, b: Block)
    ensures b in Delete(blocks, id) <==> b in blocks && b.id != id
  {
    if blocks != [] {
      DeleteMember(blocks[1..], id, b);
      assert b in blocks <==> b == blocks[0] || b in blocks[1..];
    }
  }

  /** No block with the id is left. */
  lemma DeleteRemovesAll(blocks: seq<Block>, id: int)
    ensures !HasId(Delete(blocks, id), id)
  {
    var r := Delete(blocks, id);
    forall i | 0 <= i < |r|
      ensures r[i].id != id
    {
      DeleteMember(blocks, id, r[i]);
    }
  }

  /** The survivors keep their order: deleting from a concatenation deletes from
      each part. */
  lemma {:induction false} DeleteAppend(a: seq<Block>, b: seq<Block>, id: int)
    ensures Delete(a + b, id) == Delete(a, id) + Delete(b, id)
  {
    if a == [] {
      assert a + b == b;
    } else {
      var s := a + b;
      assert s[0] == a[0] && s[1..] == a[1..] + b;
      DeleteAppend(a[1..], b, id);
      if a[0].id != id {
        assert Delete(s, id) == [a[0]] + (Delete(a[1..], id) + Delete(b, id));
      } else {
        assert Delete(s, id) == Delete(a[1..], id) + Delete(b, id);
      }
    }
  }

  /** Deleting an id that no block has changes nothing. */
  lemma {:induction false} DeleteAbsent(blocks: seq<Block>, id: int)
    requires !HasId(blocks, id)
    ensures Delete(blocks, id) == blocks
  {
    if blocks != [] {
      assert blocks[0].id != id;
      assert !HasId(blocks[1..], id) by {
        forall i | 0 <= i < |blocks[1..]|
          ensures blocks[1..][i].id != id
        {
          assert blocks[1..][i] == blocks[i + 1];
        }
      }
      DeleteAbsent(blocks[1..], id);
    }
  }

  /** Deleting an id that is present shortens the list. */
  lemma DeletePresent(blocks: seq<Block>, id: int)
    requires HasId(blocks, id)
    ensures |Delete(blocks, id)| < |blocks|
  {
    var i :| 0 <= i < |blocks| && blocks[i].id == id;
    DeleteAppend(blocks[..i], blocks[i..], id);
    assert blocks == blocks[..i] + blocks[i..];
    assert blocks[i..] == [blocks[i]] + blocks[i + 1..];
  }

  // ---------------------------------------------------------------------
  // findIndex and the splice reorder

  /** `blocks.findIndex(b => b.id === id)`: the first block with the id. */
  function IndexOf(blocks: seq<Block>, id: int): (r: Option<nat>)
    ensures r.Some? ==> r.value < |blocks| && blocks[r.value].id == id
    ensures r.Some? ==> forall k :: 0 <= k < r.value ==> blocks[k].id != id
    ensures r.None? <==> !HasId(blocks, id)
  {
    if blocks == [] then None
    else if blocks[0].id == id then Some(0)
    else
      var rest := IndexOf(blocks[1..], id);
      assert HasId(blocks, id) ==> HasId(blocks[1..], id) by {
        if HasId(blocks, id) {
          var i :| 0 <= i < |blocks| && blocks[i].id == id;
          assert blocks[1..][i - 1] == blocks[i];
        }
      }
      if rest.Some? then Some(rest.value + 1) else None
  }

  /** `s` without its element at `i` (`splice(i, 1)`). */
  function Remove<T>(s: seq<T>, i: nat): (r: seq<T>)
    requires i < |s|
    ensures |r| == |s| - 1
  {
    s[..i] + s[i + 1..]
  }

  /** The list after `splice(d, 1)` followed by `splice(t, 0, item)`: the
      element at `d` is taken out and put back in at index `t` of what
      remains. */
  function Moved<T>(s: seq<T>, d: nat, t: nat): (r: seq<T>)
    requires d < |s| && t < |s|
    ensures |r| == |s|
  {
    var rest := Remove(s, d);
    rest[..t] + [s[d]] + rest[t..]
  }

  /** Element by element: the moved element is at `t`, the ones between the
      two positions shift by one towards `d`, the others stay. */
  lemma MovedAt<T>(s: seq<T>, d: nat, t: nat, j: nat)
    requires d < |s| && t < |s| && j < |s|
    ensures Moved(s, d, t)[j] ==
      if j == t then s[d]
      else if d <= j < t then s[j + 1]
      else if t < j <= d then s[j - 1]
      else s[j]
  {
    var rest := Remove(s, d);
    assert forall i :: 0 <= i < |rest| ==> rest[i] == if i < d then s[i] else s[i + 1];
  }

  /** The moved element ends at the target's index. */
  lemma MovedTarget<T>(s: seq<T>, d: nat, t: nat)
    requires d < |s| && t < |s|
    ensures Moved(s, d, t)[t] == s[d]
  {
    MovedAt(s, d, t, t);
  }

  /** The other elements keep their relative order. */
  lemma MovedOthers<T>(s: seq<T>, d: nat, t: nat)
    requires d < |s| && t < |s|
    ensures Remove(Moved(s, d, t), t) == Remove(s, d)
  {
    var m := Moved(s, d, t);
    var rest := Remove(s, d);
    assert m[..t] == rest[..t];
    assert m[t + 1..] == rest[t..];
    assert rest == rest[..t] + rest[t..];
  }

  /** Putting the element back in at its old index restores the list. */
  lemma InsertRemoved<T>(s: seq<T>, d: nat)
    requires d < |s|
    ensures Remove(s, d)[..d] + [s[d]] + Remove(s, d)[d..] == s
  {
    assert Remove(s, d)[..d] == s[..d];
    assert Remove(s, d)[d..] == s[d + 1..];
    assert s == s[..d] + [s[d]] + s[d + 1..];
  }

  /** The reorder is a permutation. */
  lemma MovedPermutes<T>(s: seq<T>, d: nat, t: nat)
    requires d < |s| && t < |s|
    ensures multiset(Moved(s, d, t)) == multiset(s)
  {
    var rest := Remove(s, d);
    calc {
      multiset(Moved(s, d, t));
      multiset(rest[..t]) + multiset{s[d]} + multiset(rest[t..]);
      { assert rest == rest[..t] + rest[t..]; }
      multiset(rest) + multiset{s[d]};
      { assert s == s[..d] + [s[d]] + s[d + 1..]; }
      multiset(s);
    }
  }

  /** Dragging the block back from the target's index to its old index undoes
      the reorder. */
  lemma MovedBack<T>(s: seq<T>, d: nat, t: nat)
    requires d < |s| && t < |s|
    ensures Moved(Moved(s, d, t), t, d) == s
  {
    MovedOthers(s, d, t);
    MovedTarget(s, d, t);
    InsertRemoved(s, d);
  }

  /** Dragging downwards (`d < t`) puts the block AFTER the target, which ends
      one place higher. */
  lemma MovedDown<T>(s: seq<T>, d: nat, t: nat)
    requires d < t < |s|
    ensures Moved(s, d, t) == s[..d] + s[d + 1..t + 1] + [s[d]] + s[t + 1..]
    ensures Moved(s, d, t)[t - 1] == s[t]
  {
    var m, q := Moved(s, d, t), s[..d] + s[d + 1..t + 1] + [s[d]] + s[t + 1..];
    forall j | 0 <= j < |s|
      ensures m[j] == q[j]
    {
      MovedAt(s, d, t, j);
    }
  }

  /** Dragging upwards (`t < d`) puts the block BEFORE the target, which ends
      one place lower. */
  lemma MovedUp<T>(s: seq<T>, d: nat, t: nat)
    requires t < d < |s|
    ensures Moved(s, d, t) == s[..t] + [s[d]] + s[t..d] + s[d + 1..]
    ensures Moved(s, d, t)[t + 1] == s[t]
  {
    var m, q := Moved(s, d, t), s[..t] + [s[d]] + s[t..d] + s[d + 1..];
    forall j | 0 <= j < |s|
      ensures m[j] == q[j]
    {
      MovedAt(s, d, t, j);
    }
  }
}
