/** The resumable breadth-first crawl of the Zoho WorkDrive connector: one `list_changes` call at a time. */
module FolderCrawl {
  import opened Prelude
  import opened Connector

  /** Overlap of consecutive query windows. */
  const WATERMARK_OVERLAP_MS := 60_000

  type FolderId = string

  /** One record of a folder listing. */
  datatype Entry = Entry(id: FolderId, kind: Option<string>, status: Option<string>, name: Option<string>) {
    predicate IsFolder() {
      kind == Some("folder")
    }

    predicate IsDeleted() {
      status == Some("deleted")
    }
  }

  datatype Page = Page(items: seq<Entry>, more: bool)

  datatype FolderCursor = FolderCursor(folderId: FolderId, nextOffset: nat)

  /** The traversal state that is saved between polls. */
  datatype ZohoCursor = ZohoCursor(
    watermarkMs: int,
    queue: seq<FolderCursor>,
    visited: seq<FolderId>,
    rootId: FolderId,
    runStartedMs: int)

  datatype DeltaResult = DeltaResult(nextCursor: ZohoCursor, changes: seq<ChangeItem>, more: bool)

  // ----- The remote side ------------------------------------------------------------------------

  /** What a folder holds, as seen through a query window that opens at the given time. */
  type Listing = (FolderId, int) -> seq<Entry>

  /** The answer to one page request: folder, offset, window start. */
  type Responder = (FolderId, nat, int) -> Result<Page, ConnectorError>

  /** A page is a contiguous piece of the listing, says truthfully whether more follows, and then is not empty. */
  ghost predicate HonestPage(all: seq<Entry>, offset: nat, page: Page) {
    if offset > |all| then page == Page([], false)
    else
      && offset + |page.items| <= |all|
      && page.items == all[offset..offset + |page.items|]
      && (page.more <==> offset + |page.items| < |all|)
      && (page.more ==> page.items != [])
  }

  ghost predicate HonestPaging(listing: Listing, respond: Responder) {
    forall f, offset, from :: respond(f, offset, from).Ok? ==>
      HonestPage(listing(f, from), offset, respond(f, offset, from).value)
  }

  // ----- What one call does ---------------------------------------------------------------------

  function Bootstrap(rootId: FolderId, nowMs: int): ZohoCursor {
    ZohoCursor(0, [FolderCursor(rootId, 0)], [], rootId, nowMs)
  }

  /** Start of the query window. */
  function FromMs(st: ZohoCursor): int {
    Max(st.watermarkMs - WATERMARK_OVERLAP_MS, 0)
  }

  /** The folders of a listing that are new, in order of first appearance. */
  function NewFolders(items: seq<Entry>, visited: seq<FolderId>): seq<FolderId> {
    if items == [] then []
    else
      var earlier := NewFolders(items[..|items| - 1], visited);
      var last := items[|items| - 1];
      if last.IsFolder() && last.id !in visited && last.id !in earlier then earlier + [last.id] else earlier
  }

  function Change(e: Entry, folder: FolderId): ChangeItem {
    ChangeItem(e.id, Some(folder), e.name.GetOr(""), e.IsDeleted())
  }

  /** One change per file of a listing. */
  function FileChanges(items: seq<Entry>, folder: FolderId): seq<ChangeItem> {
    if items == [] then []
    else
      var last := items[|items| - 1];
      FileChanges(items[..|items| - 1], folder) + (if last.IsFolder() then [] else [Change(last, folder)])
  }

  function AtStart(folders: seq<FolderId>): (r: seq<FolderCursor>)
    ensures |r| == |folders| && forall i :: 0 <= i < |r| ==> r[i] == FolderCursor(folders[i], 0)
  {
    seq(|folders|, i requires 0 <= i < |folders| => FolderCursor(folders[i], 0))
  }

  /** The part of a listing that one call reads. */
  function Unread(listing: Listing, st: ZohoCursor): seq<Entry>
    requires st.queue != []
  {
    From(listing(st.queue[0].folderId, FromMs(st)), st.queue[0].nextOffset)
  }

  /** A successful call: list one folder completely, or start the next run when none is left. */
  function Poll(listing: Listing, st: ZohoCursor, nowMs: int): DeltaResult {
    if st.queue == [] then
      DeltaResult(
        ZohoCursor(st.runStartedMs, [FolderCursor(st.rootId, 0)], [], st.rootId, nowMs), [], false)
    else
      var items := Unread(listing, st);
      var found := NewFolders(items, st.visited);
      var queue := st.queue[1..] + AtStart(found);
      DeltaResult(
        st.(queue := queue, visited := st.visited + found),
        FileChanges(items, st.queue[0].folderId),
        queue != [])
  }

  method ListChanges(rootId: FolderId, cursor: Option<ZohoCursor>, nowMs: int, respond: Responder, ghost listing: Listing)
    returns (r: Result<DeltaResult, ConnectorError>)
    requires HonestPaging(listing, respond)
    ensures r.Ok? ==> r.value == Poll(listing, cursor.GetOr(Bootstrap(rootId, nowMs)), nowMs)
    ensures (forall f, offset, from :: respond(f, offset, from).Ok?) ==> r.Ok?
  {
    var state := if cursor.Some? then cursor.value else Bootstrap(rootId, nowMs);
    ghost var start := state;
    var fromMs := Max(state.watermarkMs - WATERMARK_OVERLAP_MS, 0);
    if state.queue == [] {
      state := state.(watermarkMs := state.runStartedMs);
      state := state.(runStartedMs := nowMs);
      state := state.(visited := []);
      state := state.(queue := [FolderCursor(state.rootId, 0)]);
      return Ok(DeltaResult(state, [], false));
    }
    var listed := ListFolder(state, fromMs, respond, listing);
    if listed.Err? {
      return Err(listed.error);
    }
    state := listed.value.0;
    ProgressIsPoll(listing, start, state, listed.value.1, nowMs);
    r := Ok(DeltaResult(state, listed.value.1, state.queue != []));
  }

  /** Pops the first folder and reads all of its pages. */
  method ListFolder(start: ZohoCursor, fromMs: int, respond: Responder, ghost listing: Listing)
    returns (r: Result<(ZohoCursor, seq<ChangeItem>), ConnectorError>)
    requires start.queue != [] && fromMs == FromMs(start) && HonestPaging(listing, respond)
    ensures r.Ok? ==> Progress(start, r.value.0, r.value.1, Unread(listing, start))
    ensures (forall f, offset, from :: respond(f, offset, from).Ok?) ==> r.Ok?
  {
    var folder := start.queue[0];
    var state := start.(queue := start.queue[1..]);
    var folderId, offset: nat := folder.folderId, folder.nextOffset;
    var changes := [];
    var moreInFolder := true;
    ghost var all := listing(folderId, fromMs);
    ghost var seen := [];
    ProgressStart(start);
    assert Unread(listing, start) == From(all, folder.nextOffset);
    hide Progress, HonestPaging, From, Unread;
    while true
      invariant Progress(start, state, changes, seen)
      invariant seen + From(all, offset) == From(all, folder.nextOffset)
      decreases |From(all, offset)|
    {
      var response := respond(folderId, offset, fromMs);
      if response.Err? {
        return Err(response.error);
      }
      var items := response.value.items;
      moreInFolder := response.value.more;
      PageAdvances(listing, respond, folderId, offset, fromMs, seen);
      state, changes := ReadPage(start, state, changes, seen, folderId, items);
      seen := seen + items;
      if !moreInFolder {
        assert seen == seen + [];
        break;
      }
      offset := offset + |items|;
    }
    if moreInFolder {
      // the source pushes the folder back here, but the loop only ends on a last page
      assert false;
    }
    r := Ok((state, changes));
  }

  /** What is left of a listing from an offset on; nothing behind its end. */
  function From(all: seq<Entry>, offset: nat): seq<Entry> {
    if offset <= |all| then all[offset..] else []
  }

  lemma PageAdvances(listing: Listing, respond: Responder, folder: FolderId, offset: nat, fromMs: int, seen: seq<Entry>)
    requires HonestPaging(listing, respond) && respond(folder, offset, fromMs).Ok?
    ensures var all, page := listing(folder, fromMs), respond(folder, offset, fromMs).value;
            var rest := From(all, offset + |page.items|);
            && seen + page.items + rest == seen + From(all, offset)
            && (page.more ==> |rest| < |From(all, offset)|)
            && (!page.more ==> rest == [])
  {
    var all, page := listing(folder, fromMs), respond(folder, offset, fromMs).value;
    assert HonestPage(all, offset, page);
    assert From(all, offset) == page.items + From(all, offset + |page.items|);
  }

  /** The loop over one page: enqueue unseen subfolders, yield files. */
  method ReadPage(ghost start: ZohoCursor, before: ZohoCursor, changesBefore: seq<ChangeItem>,
                  ghost seen: seq<Entry>, folderId: FolderId, items: seq<Entry>)
    returns (state: ZohoCursor, changes: seq<ChangeItem>)
    requires start.queue != [] && folderId == start.queue[0].folderId && Progress(start, before, changesBefore, seen)
    ensures Progress(start, state, changes, seen + items)
  {
    hide Progress, NewFolders, FileChanges;
    state, changes := before, changesBefore;
    assert seen + items[..0] == seen;
    for i := 0 to |items|
      invariant Progress(start, state, changes, seen + items[..i])
    {
      var item := items[i];
      ProgressStep(start, state, changes, seen + items[..i], item);
      assert seen + items[..i + 1] == seen + items[..i] + [item];
      if item.IsFolder() && item.id !in state.visited {
        state := state.(visited := state.visited + [item.id]);
        state := state.(queue := state.queue + [FolderCursor(item.id, 0)]);
      }
      if !item.IsFolder() {
        changes := changes + [Change(item, folderId)];
      }
    }
    assert items[..|items|] == items;
  }

  /** The call so far has read `seen`. */
  ghost predicate Progress(start: ZohoCursor, state: ZohoCursor, changes: seq<ChangeItem>, seen: seq<Entry>)
    requires start.queue != []
  {
    var found := NewFolders(seen, start.visited);
    && state == start.(queue := start.queue[1..] + AtStart(found), visited := start.visited + found)
    && changes == FileChanges(seen, start.queue[0].folderId)
  }

  lemma ProgressStep(start: ZohoCursor, state: ZohoCursor, changes: seq<ChangeItem>, seen: seq<Entry>, item: Entry)
    requires start.queue != [] && Progress(start, state, changes, seen)
    ensures var state' := if item.IsFolder() && item.id !in state.visited
                          then state.(visited := state.visited + [item.id], queue := state.queue + [FolderCursor(item.id, 0)])
                          else state;
            var changes' := if item.IsFolder() then changes else changes + [Change(item, start.queue[0].folderId)];
            Progress(start, state', changes', seen + [item])
  {
    assert (seen + [item])[..|seen|] == seen;
    var found := NewFolders(seen, start.visited);
    var next := NewFolders(seen + [item], start.visited);
    assert next == if item.IsFolder() && item.id !in start.visited && item.id !in found then found + [item.id] else found;
    assert FileChanges(seen + [item], start.queue[0].folderId)
        == changes + (if item.IsFolder() then [] else [Change(item, start.queue[0].folderId)]);
    hide NewFolders, FileChanges;
    assert AtStart(found + [item.id]) == AtStart(found) + [FolderCursor(item.id, 0)];
  }

  lemma ProgressStart(start: ZohoCursor)
    requires start.queue != []
    ensures Progress(start, start.(queue := start.queue[1..]), [], [])
  {
    assert start.queue[1..] + AtStart([]) == start.queue[1..];
    assert start.visited + [] == start.visited;
  }

  lemma ProgressIsPoll(listing: Listing, start: ZohoCursor, state: ZohoCursor, changes: seq<ChangeItem>, nowMs: int)
    requires start.queue != [] && Progress(start, state, changes, Unread(listing, start))
    ensures Poll(listing, start, nowMs) == DeltaResult(state, changes, state.queue != [])
  {
  }
}
