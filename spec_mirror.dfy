/**
 The deterministic core of the Spec Mirror run: it cuts the pull-request
 diff to the model's input budget, finds the checklist page id in the
 milestone text, turns the page's child blocks into a list of spec items,
 and decides which checklist blocks to annotate from the ids the audit
 oracle reports.

 The workspace API and the oracle are outside the model: the fetched
 blocks and the oracle's `implemented_ids` are inputs, and the block
 updates the run would send are returned as a sequence of records.
 */
module SpecMirror {

  datatype Option<T> = None | Some(value: T)

  /** Characters of the diff passed on to the oracle. */
  const DiffBudget: nat := 500000

  /** Length of a workspace page id: 32 lowercase hexadecimal digits. */
  const PageIdLength: nat := 32

  // ---------------------------------------------------------------------
  // Diff truncation
  // ---------------------------------------------------------------------

  /** The diff text the oracle sees: at most the first `DiffBudget`
      characters of the file content. */
  function TruncateDiff(content: string): (diff: string)
    ensures |diff| == if |content| < DiffBudget then |content| else DiffBudget
    ensures diff == content[..|diff|]
    ensures |content| <= DiffBudget ==> diff == content
  {
    if |content| <= DiffBudget then content else content[..DiffBudget]
  }

  // ---------------------------------------------------------------------
  // Page-id extraction: the leftmost match of [a-f0-9]{32}
  // ---------------------------------------------------------------------

  predicate IsHexDigit(c: char)
  {
    '0' <= c <= '9' || 'a' <= c <= 'f'
  }

  /** A run of `PageIdLength` hex digits starts at position `i` of `s`. */
  predicate HexRunAt(s: string, i: nat)
  {
    i + PageIdLength <= |s| && forall k :: i <= k < i + PageIdLength ==> IsHexDigit(s[k])
  }

  /** The first position at or after `from` where a hex run starts. */
  function FindHexRun(s: string, from: nat): (r: Option<nat>)
    ensures r.Some? ==> from <= r.value && HexRunAt(s, r.value)
    ensures r.Some? ==> forall j :: from <= j < r.value ==> !HexRunAt(s, j)
    ensures r.None? ==> forall j :: from <= j ==> !HexRunAt(s, j)
    decreases |s| - from
  {
    if from + PageIdLength > |s| then None
    else if HexRunAt(s, from) then Some(from)
    else FindHexRun(s, from + 1)
  }

  /** The page id named in the milestone text, if any: the leftmost run of
      32 lowercase hex digits. */
  function ExtractPageId(milestone: string): (pageId: Option<string>)
    ensures pageId.None? <==> forall j: nat :: !HexRunAt(milestone, j)
    ensures pageId.Some? ==>
      |pageId.value| == PageIdLength &&
      forall k :: 0 <= k < |pageId.value| ==> IsHexDigit(pageId.value[k])
    ensures pageId.Some? ==>
      exists i: nat :: HexRunAt(milestone, i) && milestone[i..i + PageIdLength] == pageId.value &&
        forall j :: 0 <= j < i ==> !HexRunAt(milestone, j)
  {
    match FindHexRun(milestone, 0)
    case None => None
    case Some(i) => Some(milestone[i..i + PageIdLength])
  }

  // ---------------------------------------------------------------------
  // Block filtering
  // ---------------------------------------------------------------------

  /** One run of a block's rich text; only its plain text is read. */
  datatype RichTextRun = RichTextRun(plainText: string)

  /** A child block as fetched: its id, its type name, and the rich text of
      its type-specific part (empty when that part has none). */
  datatype Block = Block(id: string, kind: string, richText: seq<RichTextRun>)

  /** A checklist entry offered to the oracle. */
  datatype SpecItem = SpecItem(id: string, text: string)

  predicate IsChecklistKind(kind: string)
  {
    kind == "to_do" || kind == "bulleted_list_item"
  }

  /** A block becomes a spec item when it is a to-do or bulleted item whose
      rich-text list is non-empty. */
  predicate IsSpecBlock(b: Block)
  {
    IsChecklistKind(b.kind) && |b.richText| > 0
  }

  /** The plain texts of the runs, concatenated in order. */
  function JoinPlainText(runs: seq<RichTextRun>): string
  {
    if runs == [] then ""
    else JoinPlainText(runs[..|runs| - 1]) + runs[|runs| - 1].plainText
  }

  function ItemOf(b: Block): SpecItem
  {
    SpecItem(b.id, JoinPlainText(b.richText))
  }

  /** The spec items of a page, in block order. */
  function Checklist(blocks: seq<Block>): seq<SpecItem>
  {
    if blocks == [] then []
    else
      var last := blocks[|blocks| - 1];
      Checklist(blocks[..|blocks| - 1]) + (if IsSpecBlock(last) then [ItemOf(last)] else [])
  }

  /** The line listing one item in the oracle prompt. */
  function SpecLine(item: SpecItem): string
  {
    "- [ID: " + item.id + "] " + item.text + "\n"
  }

  /** The spec list of the prompt: one line per item, in order. */
  function RenderSpecList(items: seq<SpecItem>): string
  {
    if items == [] then ""
    else RenderSpecList(items[..|items| - 1]) + SpecLine(items[|items| - 1])
  }

  /** The id-to-text map; a later item with the same id overwrites. */
  function IndexItems(items: seq<SpecItem>): map<string, string>
  {
    if items == [] then map[]
    else
      var last := items[|items| - 1];
      IndexItems(items[..|items| - 1])[last.id := last.text]
  }

  /** Appending one block adds its item, if it is kept, at the end. */
  lemma ChecklistSnoc(blocks: seq<Block>, b: Block)
    ensures IsSpecBlock(b) ==> Checklist(blocks + [b]) == Checklist(blocks) + [ItemOf(b)]
    ensures !IsSpecBlock(b) ==> Checklist(blocks + [b]) == Checklist(blocks)
  {
    assert (blocks + [b])[..|blocks|] == blocks;
    assert Checklist(blocks) + [] == Checklist(blocks);
  }

  /** Appending one item adds its line at the end of the spec list and
      (over)writes its id in the map. */
  lemma ItemSnoc(items: seq<SpecItem>, item: SpecItem)
    ensures RenderSpecList(items + [item]) == RenderSpecList(items) + SpecLine(item)
    ensures IndexItems(items + [item]) == IndexItems(items)[item.id := item.text]
  {
    assert (items + [item])[..|items|] == items;
  }

  /** Concatenating rich text keeps run order. */
  lemma {:induction false} JoinPlainTextAppend(a: seq<RichTextRun>, b: seq<RichTextRun>)
    ensures JoinPlainText(a + b) == JoinPlainText(a) + JoinPlainText(b)
  {
    if b == [] {
      assert a + b == a;
    } else {
      var b' := b[..|b| - 1];
      var x := b[|b| - 1];
      assert (a + b)[..|a + b| - 1] == a + b';
      JoinPlainTextAppend(a, b');
      calc {
        JoinPlainText(a + b);
        JoinPlainText(a + b') + x.plainText;
        (JoinPlainText(a) + JoinPlainText(b')) + x.plainText;
        JoinPlainText(a) + (JoinPlainText(b') + x.plainText);
        JoinPlainText(a) + JoinPlainText(b);
      }
    }
  }

  /** Filtering is block by block: the items of two stretches of blocks are
      the items of the first followed by those of the second. */
  lemma {:induction false} ChecklistAppend(a: seq<Block>, b: seq<Block>)
    ensures Checklist(a + b) == Checklist(a) + Checklist(b)
  {
    if b == [] {
      assert a + b == a;
    } else {
      ChecklistAppend(a, b[..|b| - 1]);
      assert (a + b)[..|a + b| - 1] == a + b[..|b| - 1];
    }
  }

  /** Every item comes from a kept block, every kept block yields an item,
      and the list is empty exactly when no block is kept. */
  lemma {:induction false} ChecklistMembers(blocks: seq<Block>)
    ensures forall k :: 0 <= k < |Checklist(blocks)| ==>
      exists i :: 0 <= i < |blocks| && IsSpecBlock(blocks[i]) && Checklist(blocks)[k] == ItemOf(blocks[i])
    ensures forall i :: 0 <= i < |blocks| && IsSpecBlock(blocks[i]) ==> ItemOf(blocks[i]) in Checklist(blocks)
    ensures Checklist(blocks) == [] <==> forall i :: 0 <= i < |blocks| ==> !IsSpecBlock(blocks[i])
  {
    if blocks != [] {
      var init := blocks[..|blocks| - 1];
      var last := blocks[|blocks| - 1];
      assert blocks == init + [last];
      ChecklistMembers(init);
      ChecklistSnoc(init, last);
      var items := Checklist(blocks);
      var prev := Checklist(init);
      forall k | 0 <= k < |items|
        ensures exists i :: 0 <= i < |blocks| && IsSpecBlock(blocks[i]) && items[k] == ItemOf(blocks[i])
      {
        if k < |prev| {
          assert items[k] == prev[k];
          var i :| 0 <= i < |init| && IsSpecBlock(init[i]) && prev[k] == ItemOf(init[i]);
          assert blocks[i] == init[i];
        } else {
          assert IsSpecBlock(last) && items[k] == ItemOf(blocks[|blocks| - 1]);
        }
      }
      forall i | 0 <= i < |blocks| && IsSpecBlock(blocks[i])
        ensures ItemOf(blocks[i]) in items
      {
        if i < |init| {
          assert blocks[i] == init[i];
          assert ItemOf(init[i]) in prev;
        }
      }
      assert items == Checklist(blocks);
    } else {
      assert Checklist(blocks) == [];
    }
  }

  /** The map's keys are the ids of the items, and an id maps to the text of
      its last item. */
  lemma {:induction false} IndexItemsSpec(items: seq<SpecItem>)
    ensures forall id :: id in IndexItems(items) <==> exists i :: 0 <= i < |items| && items[i].id == id
    ensures forall i :: 0 <= i < |items| && (forall j :: i < j < |items| ==> items[j].id != items[i].id) ==>
      IndexItems(items)[items[i].id] == items[i].text
  {
    if items != [] {
      var init := items[..|items| - 1];
      IndexItemsSpec(init);
      assert forall i :: 0 <= i < |init| ==> init[i] == items[i];
    }
  }

  /** Block `i` is kept and has id `id`. */
  predicate SpecBlockWith(blocks: seq<Block>, id: string, i: int)
  {
    0 <= i < |blocks| && IsSpecBlock(blocks[i]) && blocks[i].id == id
  }

  /** A block id is a key of the block map exactly when some kept block has
      that id. */
  lemma {:induction false} BlockMapKeys(blocks: seq<Block>, id: string)
    ensures id in IndexItems(Checklist(blocks)) <==> exists i :: SpecBlockWith(blocks, id, i)
  {
    if blocks != [] {
      var init := blocks[..|blocks| - 1];
      var last := blocks[|blocks| - 1];
      assert blocks == init + [last];
      BlockMapKeys(init, id);
      ChecklistSnoc(init, last);
      if IsSpecBlock(last) {
        ItemSnoc(Checklist(init), ItemOf(last));
      }
      if IsSpecBlock(last) && last.id == id {
        assert SpecBlockWith(blocks, id, |blocks| - 1);
      } else {
        forall i | SpecBlockWith(init, id, i)
          ensures SpecBlockWith(blocks, id, i)
        {
          assert blocks[i] == init[i];
        }
        forall i | SpecBlockWith(blocks, id, i)
          ensures SpecBlockWith(init, id, i)
        {
          assert blocks[|init|] == last;
          assert init[i] == blocks[i];
        }
      }
    }
  }

  /** Block `i` is kept, has id `id`, and no later kept block has that id. */
  predicate LastSpecBlockWith(blocks: seq<Block>, id: string, i: int)
  {
    && 0 <= i < |blocks| && IsSpecBlock(blocks[i]) && blocks[i].id == id
    && forall j :: i < j < |blocks| && IsSpecBlock(blocks[j]) ==> blocks[j].id != id
  }

  /** Appending a block that does not keep `id` leaves the last block with
      `id` where it was. */
  lemma LastSpecBlockSnoc(init: seq<Block>, last: Block, id: string, i: int)
    requires LastSpecBlockWith(init, id, i)
    requires !(IsSpecBlock(last) && last.id == id)
    ensures LastSpecBlockWith(init + [last], id, i)
  {
    var blocks := init + [last];
    assert blocks[i] == init[i];
    forall j | i < j < |blocks| && IsSpecBlock(blocks[j])
      ensures blocks[j].id != id
    {
      if j < |init| {
        assert blocks[j] == init[j];
      }
    }
  }

  /** A mapped id carries the concatenated text of the last kept block with
      that id. */
  lemma {:induction false} BlockMapValue(blocks: seq<Block>, id: string)
    requires id in IndexItems(Checklist(blocks))
    ensures exists i ::
      && LastSpecBlockWith(blocks, id, i)
      && IndexItems(Checklist(blocks))[id] == JoinPlainText(blocks[i].richText)
  {
    var init := blocks[..|blocks| - 1];
    var last := blocks[|blocks| - 1];
    assert blocks == init + [last];
    ChecklistSnoc(init, last);
    if IsSpecBlock(last) {
      ItemSnoc(Checklist(init), ItemOf(last));
    }
    if IsSpecBlock(last) && last.id == id {
      assert LastSpecBlockWith(blocks, id, |blocks| - 1);
    } else {
      var before := IndexItems(Checklist(init));
      assert id in before && IndexItems(Checklist(blocks))[id] == before[id];
      BlockMapValue(init, id);
      var i :| LastSpecBlockWith(init, id, i) && before[id] == JoinPlainText(init[i].richText);
      LastSpecBlockSnoc(init, last, id, i);
      assert blocks[i] == init[i];
    }
  }

  /** Rendering is item by item, so lines appear in item order. */
  lemma {:induction false} RenderSpecListAppend(a: seq<SpecItem>, b: seq<SpecItem>)
    ensures RenderSpecList(a + b) == RenderSpecList(a) + RenderSpecList(b)
  {
    if b == [] {
      assert a + b == a;
    } else {
      var b' := b[..|b| - 1];
      var x := b[|b| - 1];
      assert (a + b)[..|a + b| - 1] == a + b';
      RenderSpecListAppend(a, b');
      calc {
        RenderSpecList(a + b);
        RenderSpecList(a + b') + SpecLine(x);
        (RenderSpecList(a) + RenderSpecList(b')) + SpecLine(x);
        RenderSpecList(a) + (RenderSpecList(b') + SpecLine(x));
        RenderSpecList(a) + RenderSpecList(b);
      }
    }
  }

  /** The spec list is empty exactly when there are no items. */
  lemma RenderSpecListEmpty(items: seq<SpecItem>)
    ensures RenderSpecList(items) == "" <==> items == []
  {
    if items != [] {
      assert |SpecLine(items[|items| - 1])| > 0;
    }
  }

  /** Scans the fetched blocks, building the id-to-text map and the spec
      list of the prompt. */
  method ScanBlocks(blocks: seq<Block>) returns (blockMap: map<string, string>, specListText: string)
    ensures blockMap == IndexItems(Checklist(blocks))
    ensures specListText == RenderSpecList(Checklist(blocks))
    ensures specListText == "" <==> forall i :: 0 <= i < |blocks| ==> !IsSpecBlock(blocks[i])
  {
    blockMap := map[];
    specListText := "";
    var i := 0;
    while i < |blocks|
      invariant 0 <= i <= |blocks|
      invariant blockMap == IndexItems(Checklist(blocks[..i]))
      invariant specListText == RenderSpecList(Checklist(blocks[..i]))
    {
      var b := blocks[i];
      assert blocks[..i + 1] == blocks[..i] + [b];
      ChecklistSnoc(blocks[..i], b);
      ItemSnoc(Checklist(blocks[..i]), ItemOf(b));
      if IsChecklistKind(b.kind) {
        var richText := b.richText;
        if |richText| > 0 {
          var text := JoinPlainText(richText);
          blockMap := blockMap[b.id := text];
          specListText := specListText + SpecLine(SpecItem(b.id, text));
        }
      }
      i := i + 1;
    }
    assert blocks[..i] == blocks;
    ChecklistMembers(blocks);
    RenderSpecListEmpty(Checklist(blocks));
  }

  // ---------------------------------------------------------------------
  // Update selection
  // ---------------------------------------------------------------------

  datatype Annotations = Annotations(code: bool, color: string)

  /** A text run of an update: content, optional link, optional styling. */
  datatype TextRun = TextRun(content: string, link: Option<string>, annotations: Option<Annotations>)

  /** The to-do part of an update request. */
  datatype ToDoPayload = ToDoPayload(checked: bool, richText: seq<TextRun>)

  /** One block update the run sends to the workspace. */
  datatype Update = Update(blockId: string, toDo: ToDoPayload)

  /** The marker whose presence makes the run skip a block. */
  function SkipMarker(prNumber: string): string
  {
    "(PR #" + prNumber + ")"
  }

  /** The label the run appends to an updated block. */
  function LinkLabel(prNumber: string): string
  {
    " [PR #" + prNumber + "]"
  }

  predicate OccursAt(s: string, sub: string, i: nat)
  {
    i + |sub| <= |s| && s[i..i + |sub|] == sub
  }

  /** Substring test: `sub` occurs somewhere in `s`. */
  predicate Contains(s: string, sub: string)
  {
    exists i: nat :: i <= |s| - |sub| && OccursAt(s, sub, i)
  }

  /** The update payload for a block: checked, its text kept as the first
      run, then the link label as a second run, linked and styled. */
  function LinkPayload(text: string, prNumber: string, prUrl: string): ToDoPayload
  {
    ToDoPayload(true, [
      TextRun(text, None, None),
      TextRun(LinkLabel(prNumber), Some(prUrl), Some(Annotations(true, "blue")))
    ])
  }

  /** An oracle id leads to an update when it is a known block whose text
      lacks the skip marker. */
  predicate Selects(blockMap: map<string, string>, prNumber: string, id: string)
  {
    id in blockMap && !Contains(blockMap[id], SkipMarker(prNumber))
  }

  /** The updates for the oracle's ids, in the oracle's order. */
  function PlannedUpdates(matchedIds: seq<string>, blockMap: map<string, string>, prNumber: string, prUrl: string): seq<Update>
  {
    if matchedIds == [] then []
    else
      var id := matchedIds[|matchedIds| - 1];
      PlannedUpdates(matchedIds[..|matchedIds| - 1], blockMap, prNumber, prUrl) +
        (if Selects(blockMap, prNumber, id) then [Update(id, LinkPayload(blockMap[id], prNumber, prUrl))] else [])
  }

  /** The block ids the updates target, in order. */
  function Targets(updates: seq<Update>): seq<string>
  {
    if updates == [] then [] else Targets(updates[..|updates| - 1]) + [updates[|updates| - 1].blockId]
  }

  /** Each oracle id is handled on its own: the updates for two stretches of
      ids are those for the first followed by those for the second. */
  lemma {:induction false} PlannedUpdatesAppend(a: seq<string>, b: seq<string>, blockMap: map<string, string>, prNumber: string, prUrl: string)
    ensures PlannedUpdates(a + b, blockMap, prNumber, prUrl)
         == PlannedUpdates(a, blockMap, prNumber, prUrl) + PlannedUpdates(b, blockMap, prNumber, prUrl)
  {
    if b == [] {
      assert a + b == a;
    } else {
      var b' := b[..|b| - 1];
      var id := b[|b| - 1];
      var tail := if Selects(blockMap, prNumber, id) then [Update(id, LinkPayload(blockMap[id], prNumber, prUrl))] else [];
      PlannedUpdatesAppend(a, b', blockMap, prNumber, prUrl);
      assert (a + b)[..|a + b| - 1] == a + b';
      calc {
        PlannedUpdates(a + b, blockMap, prNumber, prUrl);
        PlannedUpdates(a + b', blockMap, prNumber, prUrl) + tail;
        (PlannedUpdates(a, blockMap, prNumber, prUrl) + PlannedUpdates(b', blockMap, prNumber, prUrl)) + tail;
        PlannedUpdates(a, blockMap, prNumber, prUrl) + (PlannedUpdates(b', blockMap, prNumber, prUrl) + tail);
        PlannedUpdates(a, blockMap, prNumber, prUrl) + PlannedUpdates(b, blockMap, prNumber, prUrl);
      }
    }
  }

  /** An id that is unknown, or whose block already carries the marker, adds
      no update wherever it stands. */
  lemma IgnoredIdNoUpdate(a: seq<string>, id: string, b: seq<string>, blockMap: map<string, string>, prNumber: string, prUrl: string)
    requires !Selects(blockMap, prNumber, id)
    ensures PlannedUpdates(a + [id] + b, blockMap, prNumber, prUrl) == PlannedUpdates(a + b, blockMap, prNumber, prUrl)
  {
    PlannedUpdatesAppend(a + [id], b, blockMap, prNumber, prUrl);
    PlannedUpdatesAppend(a, [id], blockMap, prNumber, prUrl);
    PlannedUpdatesAppend(a, b, blockMap, prNumber, prUrl);
    assert PlannedUpdates([id], blockMap, prNumber, prUrl) == PlannedUpdates([], blockMap, prNumber, prUrl) + [];
  }

  /** Every update targets a selected block, sets it checked, keeps its text
      as the first run and appends the linked, styled label. */
  lemma {:induction false} PlannedUpdatesShape(matchedIds: seq<string>, blockMap: map<string, string>, prNumber: string, prUrl: string)
    ensures forall u :: u in PlannedUpdates(matchedIds, blockMap, prNumber, prUrl) ==>
      && Selects(blockMap, prNumber, u.blockId)
      && u.toDo.checked
      && |u.toDo.richText| == 2
      && u.toDo.richText[0] == TextRun(blockMap[u.blockId], None, None)
      && u.toDo.richText[1].content == LinkLabel(prNumber)
      && u.toDo.richText[1].link == Some(prUrl)
      && u.toDo.richText[1].annotations == Some(Annotations(true, "blue"))
  {
    if matchedIds != [] {
      PlannedUpdatesShape(matchedIds[..|matchedIds| - 1], blockMap, prNumber, prUrl);
    }
  }

  /** Appending one oracle id adds its update, if it is selected, at the end. */
  lemma PlannedUpdatesSnoc(ids: seq<string>, id: string, blockMap: map<string, string>, prNumber: string, prUrl: string)
    ensures Selects(blockMap, prNumber, id) ==>
      PlannedUpdates(ids + [id], blockMap, prNumber, prUrl)
        == PlannedUpdates(ids, blockMap, prNumber, prUrl) + [Update(id, LinkPayload(blockMap[id], prNumber, prUrl))]
    ensures !Selects(blockMap, prNumber, id) ==>
      PlannedUpdates(ids + [id], blockMap, prNumber, prUrl) == PlannedUpdates(ids, blockMap, prNumber, prUrl)
  {
    assert (ids + [id])[..|ids|] == ids;
    var prev := PlannedUpdates(ids, blockMap, prNumber, prUrl);
    assert prev + [] == prev;
  }

  /** How many updates target an id: every occurrence of a selected id in
      the oracle's list, none for any other id. */
  lemma {:induction false} PlannedUpdatesCount(matchedIds: seq<string>, blockMap: map<string, string>, prNumber: string, prUrl: string, id: string)
    ensures multiset(Targets(PlannedUpdates(matchedIds, blockMap, prNumber, prUrl)))[id]
         == if Selects(blockMap, prNumber, id) then multiset(matchedIds)[id] else 0
  {
    if matchedIds != [] {
      var init := matchedIds[..|matchedIds| - 1];
      var last := matchedIds[|matchedIds| - 1];
      assert matchedIds == init + [last];
      PlannedUpdatesCount(init, blockMap, prNumber, prUrl, id);
      PlannedUpdatesSnoc(init, last, blockMap, prNumber, prUrl);
      var prev := PlannedUpdates(init, blockMap, prNumber, prUrl);
      if Selects(blockMap, prNumber, last) {
        var u := Update(last, LinkPayload(blockMap[last], prNumber, prUrl));
        assert (prev + [u])[..|prev|] == prev;
        assert Targets(prev + [u]) == Targets(prev) + [last];
      }
    }
  }

  /** Walks the oracle's ids and issues one update per selected id,
      counting them. */
  method ApplyMatches(matchedIds: seq<string>, blockMap: map<string, string>, prNumber: string, prUrl: string)
    returns (updates: seq<Update>, updatedCnt: nat)
    ensures updates == PlannedUpdates(matchedIds, blockMap, prNumber, prUrl)
    ensures updatedCnt == |updates|
  {
    updates := [];
    updatedCnt := 0;
    var i := 0;
    while i < |matchedIds|
      invariant 0 <= i <= |matchedIds|
      invariant updates == PlannedUpdates(matchedIds[..i], blockMap, prNumber, prUrl)
      invariant updatedCnt == |updates|
    {
      var bId := matchedIds[i];
      assert matchedIds[..i + 1] == matchedIds[..i] + [bId];
      PlannedUpdatesSnoc(matchedIds[..i], bId, blockMap, prNumber, prUrl);
      if bId in blockMap {
        var originalText := blockMap[bId];
        if !Contains(originalText, SkipMarker(prNumber)) {
          updates := updates + [Update(bId, LinkPayload(originalText, prNumber, prUrl))];
          updatedCnt := updatedCnt + 1;
        }
      }
      i := i + 1;
    }
    assert matchedIds[..i] == matchedIds;
  }

  /** A pull-request number as the CI environment gives it: decimal digits. */
  predicate IsDigits(s: string)
  {
    forall k :: 0 <= k < |s| ==> '0' <= s[k] <= '9'
  }

  /** No character of the written label is an opening parenthesis. */
  lemma LabelHasNoParen(prNumber: string, k: nat)
    requires IsDigits(prNumber)
    requires k < |LinkLabel(prNumber)|
    ensures LinkLabel(prNumber)[k] != '('
  {
    if 6 <= k < 6 + |prNumber| {
      assert LinkLabel(prNumber)[k] == prNumber[k - 6];
    }
  }

  /** The only blank of the skip marker is the one after "PR". */
  lemma MarkerBlankAt3(prNumber: string, j: nat)
    requires IsDigits(prNumber)
    requires j < |SkipMarker(prNumber)| && j != 3
    ensures SkipMarker(prNumber)[j] != ' '
  {
    if 5 <= j < 5 + |prNumber| {
      assert SkipMarker(prNumber)[j] == prNumber[j - 5];
    }
  }

  /** The skip check looks for "(PR #n)" while the run writes " [PR #n]":
      for any text that does not already hold the marker, the text the run
      writes does not hold it either, wherever the marker might start
      (inside the text, inside the label, or across the seam). */
  lemma LabelNotRecognised(text: string, prNumber: string)
    requires IsDigits(prNumber)
    requires !Contains(text, SkipMarker(prNumber))
    ensures !Contains(text + LinkLabel(prNumber), SkipMarker(prNumber))
  {
    var written := LinkLabel(prNumber);
    var s := text + written;
    var m := SkipMarker(prNumber);
    forall i: nat | i <= |s| - |m|
      ensures !OccursAt(s, m, i)
    {
      if i + |m| <= |text| {
        assert s[i..i + |m|] == text[i..i + |m|];
        assert !OccursAt(text, m, i);
      } else if i >= |text| {
        LabelHasNoParen(prNumber, i - |text|);
        assert s[i..i + |m|][0] == written[i - |text|];
        assert m[0] == '(';
      } else {
        var j := |text| - i;
        if j == 3 {
          assert s[i..i + |m|][4] == written[1] == '[';
          assert m[4] == '#';
        } else {
          MarkerBlankAt3(prNumber, j);
          assert s[i..i + |m|][j] == written[0] == ' ';
        }
      }
    }
  }

  /** A block selected once is selected again after its text gains the
      label the run writes. */
  lemma SelectedAgainAfterUpdate(blockMap: map<string, string>, prNumber: string, id: string)
    requires Selects(blockMap, prNumber, id)
    requires IsDigits(prNumber)
    ensures Selects(blockMap[id := blockMap[id] + LinkLabel(prNumber)], prNumber, id)
  {
    LabelNotRecognised(blockMap[id], prNumber);
  }

  // ---------------------------------------------------------------------
  // The whole run
  // ---------------------------------------------------------------------

  /** How a run ends: skipped at extraction, skipped for lack of spec items
      (after fetching `pageId`), or completed with the oracle's input and
      the updates sent. */
  datatype RunOutcome =
    | SkippedNoPageId
    | SkippedNoSpecs(pageId: string)
    | Completed(pageId: string, specListText: string, diff: string, updates: seq<Update>, updatedCnt: nat)

  /** One run, given the diff file's content, the milestone text, the pull
      request's number and URL, the blocks the workspace returns for the
      page, and the ids the oracle reports. */
  method Run(fileContent: string, milestoneDesc: string, prNumber: string, prUrl: string,
             blocks: seq<Block>, matchedIds: seq<string>) returns (outcome: RunOutcome)
    ensures ExtractPageId(milestoneDesc).None? <==> outcome == SkippedNoPageId
    ensures outcome.SkippedNoSpecs? <==>
      ExtractPageId(milestoneDesc).Some? && forall i :: 0 <= i < |blocks| ==> !IsSpecBlock(blocks[i])
    ensures !outcome.SkippedNoPageId? ==> outcome.pageId == ExtractPageId(milestoneDesc).value
    ensures outcome.Completed? ==>
      && outcome.diff == TruncateDiff(fileContent)
      && outcome.specListText == RenderSpecList(Checklist(blocks))
      && outcome.updates == PlannedUpdates(matchedIds, IndexItems(Checklist(blocks)), prNumber, prUrl)
      && outcome.updatedCnt == |outcome.updates|
  {
    var prDiff := TruncateDiff(fileContent);
    var found := ExtractPageId(milestoneDesc);
    if found.None? {
      return SkippedNoPageId;
    }
    var pageId := found.value;
    var blockMap, specListText := ScanBlocks(blocks);
    if specListText == "" {
      return SkippedNoSpecs(pageId);
    }
    var updates, updatedCnt := ApplyMatches(matchedIds, blockMap, prNumber, prUrl);
    return Completed(pageId, specListText, prDiff, updates, updatedCnt);
  }

  /** A run whose page holds one plain to-do item, which the oracle
      matches, issues exactly one update, against that item. */
  lemma SingleMatchScenario(prNumber: string, prUrl: string)
    ensures var blocks := [Block("X1", "to_do", [RichTextRun("Add retry logic")])];
      PlannedUpdates(["X1"], IndexItems(Checklist(blocks)), prNumber, prUrl)
        == [Update("X1", LinkPayload("Add retry logic", prNumber, prUrl))]
  {
    var b := Block("X1", "to_do", [RichTextRun("Add retry logic")]);
    var text := "Add retry logic";
    assert JoinPlainText(b.richText) == text by {
      assert b.richText[..0] == [];
    }
    assert Checklist([b]) == [SpecItem("X1", text)] by {
      assert IsSpecBlock(b);
      assert [b][..0] == [];
    }
    var items := [SpecItem("X1", text)];
    assert IndexItems(items) == map["X1" := text] by {
      assert items[..0] == [];
    }
    var blockMap := map["X1" := text];
    var marker := SkipMarker(prNumber);
    forall i: nat | i <= |text| - |marker|
      ensures !OccursAt(text, marker, i)
    {
      assert marker[0] == '(';
    }
    assert Selects(blockMap, prNumber, "X1");
    assert ["X1"][..0] == [];
  }
}
