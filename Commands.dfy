/**
 * The buffer commands the front end invokes (src-tauri/src/commands/buffer.rs).
 * Each takes the one database connection, runs the query of the same name
 * and turns a database error into a message prefixed with what failed. The
 * clock (`now`) and the UUID generator are parameters here.
 */
module Commands {
  import opened Wrappers
  import opened Text
  import opened Rows
  import opened SearchQuery
  import opened Store

  /** How many entries `get_sidebar_data` asks for. */
  const SidebarLimit: nat := 100
  /** How many results `search_buffers` asks for. */
  const SearchLimit: nat := 20
  /** The context `create_buffer` puts before a database error. */
  const CreateContext: string := "Failed to create buffer"

  /** `map_db_error`: the context, `": "`, then the database's message. */
  function MapDbError<T>(r: Result<T, DbError>, context: string): (m: Result<T, string>)
    ensures m.Ok? <==> r.Ok?
    ensures r.Ok? ==> m.value == r.value
    ensures r.Err? ==> StripPrefix(m.error, context + ": ") == Some(ErrorMessage(r.error))
  {
    match r
    case Ok(v) => Ok(v)
    case Err(e) =>
      var msg := context + ": " + ErrorMessage(e);
      assert msg[..|context + ": "|] == context + ": ";
      Err(msg)
  }

  /** The message of a failed command names what failed, and the cause can be read back from it. */
  lemma MapDbErrorNames<T>(r: Result<T, DbError>, context: string)
    requires r.Err?
    ensures var m := MapDbError(r, context);
      m.Err? && |m.error| > |context| + 2 && m.error[..|context|] == context
      && m.error[|context|..|context| + 2] == ": "
  {
    var m := MapDbError(r, context);
    assert m.error == context + ": " + ErrorMessage(r.error);
    assert m.error[..|context| + 2] == context + ": ";
    assert ErrorMessage(r.error)[0] == 'U';
  }

  /**
   * `create_buffer`: a new, empty buffer under the freshly generated `id`,
   * stamped with `now`. Only an id that is already taken makes it fail.
   */
  method CreateBuffer(db: Database, id: string, now: int) returns (r: Result<string, string>)
    requires db.Ready()
    modifies db
    ensures db.Ready()
    ensures r.Ok? <==> id !in old(db.buffers)
    ensures r.Ok? ==>
      r.value == id && db.buffers.Keys == old(db.buffers).Keys + {id}
      && (forall k :: k in old(db.buffers) ==> db.buffers[k] == old(db.buffers)[k])
      && db.buffers[id].content == "" && db.buffers[id].createdAt == now
      && db.buffers[id].updatedAt == now && db.buffers[id].accessedAt == now
      && !db.buffers[id].isArchived && !db.buffers[id].isPinned
      && db.fts[db.buffers[id].rowid] == ""
    ensures r.Err? ==>
      r.error == CreateContext + ": " + ErrorMessage(UniqueViolation("buffers", "id"))
      && db.buffers == old(db.buffers) && db.fts == old(db.fts)
    ensures db.settings == old(db.settings)
  {
    var created := db.CreateBuffer(id, "", now);
    match MapDbError(created, CreateContext)
    case Err(msg) => return Err(msg);
    case Ok(_) => return Ok(id);
  }

  /**
   * `save_buffer`: writes the content of the buffer with that id, if there is
   * one, and succeeds either way.
   */
  method SaveBuffer(db: Database, id: string, content: string, now: int) returns (r: Result<(), string>)
    requires db.Ready()
    modifies db
    ensures db.Ready()
    ensures r == Ok(())
    ensures db.buffers.Keys == old(db.buffers).Keys
    ensures forall k :: k in old(db.buffers) && k != id ==> db.buffers[k] == old(db.buffers)[k]
    ensures id in old(db.buffers) ==>
      db.buffers[id] == old(db.buffers)[id].(content := content, updatedAt := now)
    ensures id in old(db.buffers) ==> db.fts[db.buffers[id].rowid] == content
    ensures db.settings == old(db.settings)
  {
    var _ := db.UpdateBufferContent(id, content, now);
    return Ok(());
  }

  /**
   * `get_buffer_content`: marks the buffer as accessed now, then returns its
   * content, archived or not; an unknown id is `Buffer not found: <id>`.
   */
  method GetBufferContent(db: Database, id: string, now: int) returns (r: Result<string, string>)
    requires db.Ready()
    modifies db
    ensures db.Ready()
    ensures r.Ok? <==> id in old(db.buffers)
    ensures r.Ok? ==> r.value == old(db.buffers)[id].content
    ensures r.Err? ==> r.error == "Buffer not found: " + id
    ensures db.buffers.Keys == old(db.buffers).Keys
    ensures forall k :: k in old(db.buffers) && k != id ==> db.buffers[k] == old(db.buffers)[k]
    ensures id in old(db.buffers) ==> db.buffers[id] == old(db.buffers)[id].(accessedAt := now)
    ensures db.fts == old(db.fts) && db.settings == old(db.settings)
  {
    var _ := db.TouchBuffer(id, now);
    var buffer := db.GetBufferContent(id);
    match buffer
    case Some(b) => return Ok(b.content);
    case None => return Err("Buffer not found: " + id);
  }

  /**
   * `get_sidebar_data`: the first 100 entries of the sidebar, as
   * `get_sidebar_buffers` orders them.
   */
  method GetSidebarData(db: Database) returns (r: Result<seq<BufferSummary>, string>)
    requires db.Ready()
    ensures r.Ok?
    ensures |r.value| == Min(SidebarLimit, |LiveIds(db.buffers)|)
    ensures forall i :: 0 <= i < |r.value| ==>
      r.value[i].id in LiveIds(db.buffers) && r.value[i] == Summarize(r.value[i].id, db.buffers[r.value[i].id])
    ensures forall i, j :: 0 <= i < j < |r.value| ==> r.value[i].id != r.value[j].id
    ensures forall i, j :: 0 <= i < j < |r.value| && r.value[j].isPinned ==> r.value[i].isPinned
    ensures forall i, j :: 0 <= i < j < |r.value| && r.value[i].isPinned == r.value[j].isPinned ==>
      db.buffers[r.value[i].id].accessedAt >= db.buffers[r.value[j].id].accessedAt
    ensures forall i, o ::
      0 <= i < |r.value| && o in LiveIds(db.buffers) && (forall k :: 0 <= k < |r.value| ==> r.value[k].id != o)
      ==> ListedBefore(db.buffers[r.value[i].id], db.buffers[o])
  {
    var summaries := db.GetSidebarBuffers(SidebarLimit);
    return Ok(summaries);
  }

  /**
   * `search_buffers`: for a query that is not blank, the first 20 matching
   * live buffers (all of them when there are fewer), each with its snippet.
   */
  method SearchBuffers(db: Database, query: string, matches: (string, string) -> bool,
                       highlight: (string, string) -> string)
    returns (r: Result<seq<SearchResult>, string>)
    requires db.Ready()
    ensures r.Ok?
    ensures IsBlank(query) ==> r.value == []
    ensures !IsBlank(query) ==> |r.value| == Min(SearchLimit, |db.Matching(SafeQuery(query), matches)|)
    ensures forall i :: 0 <= i < |r.value| ==>
      var id := r.value[i].id;
      id in LiveIds(db.buffers) && matches(SafeQuery(query), db.buffers[id].content)
      && r.value[i] == SearchResult(id, highlight(SafeQuery(query), db.buffers[id].content), db.buffers[id].updatedAt)
    ensures forall i, j :: 0 <= i < j < |r.value| ==> r.value[i].id != r.value[j].id
    ensures !IsBlank(query) && |r.value| < SearchLimit ==>
      forall id :: id in LiveIds(db.buffers) && matches(SafeQuery(query), db.buffers[id].content) ==>
        exists i :: 0 <= i < |r.value| && r.value[i].id == id
  {
    var results := db.SearchBuffers(query, SearchLimit, matches, highlight);
    return Ok(results);
  }

  /** `archive_buffer`: the buffer leaves the live set; an unknown id is not an error. */
  method ArchiveBuffer(db: Database, id: string) returns (r: Result<(), string>)
    requires db.Ready()
    modifies db
    ensures db.Ready()
    ensures r == Ok(())
    ensures db.buffers.Keys == old(db.buffers).Keys
    ensures forall k :: k in old(db.buffers) && k != id ==> db.buffers[k] == old(db.buffers)[k]
    ensures id in old(db.buffers) ==> db.buffers[id] == old(db.buffers)[id].(isArchived := true)
    ensures LiveIds(db.buffers) == LiveIds(old(db.buffers)) - {id}
    ensures db.fts == old(db.fts)
    ensures db.settings == old(db.settings)
  {
    var _ := db.ArchiveBuffer(id);
    return Ok(());
  }

  /** `delete_buffer_permanently`: the row and its index entry go; an unknown id is not an error. */
  method DeleteBufferPermanently(db: Database, id: string) returns (r: Result<(), string>)
    requires db.Ready()
    modifies db
    ensures db.Ready()
    ensures r == Ok(())
    ensures db.buffers == old(db.buffers) - {id}
    ensures id in old(db.buffers) ==> old(db.buffers)[id].rowid !in db.fts
    ensures db.settings == old(db.settings)
  {
    var _ := db.DeleteBuffer(id);
    return Ok(());
  }

  /** `toggle_pin`: flips the pin of that buffer; an unknown id is not an error. */
  method TogglePin(db: Database, id: string) returns (r: Result<(), string>)
    requires db.Ready()
    modifies db
    ensures db.Ready()
    ensures r == Ok(())
    ensures db.buffers.Keys == old(db.buffers).Keys
    ensures forall k :: k in old(db.buffers) && k != id ==> db.buffers[k] == old(db.buffers)[k]
    ensures id in old(db.buffers) ==>
      db.buffers[id] == old(db.buffers)[id].(isPinned := !old(db.buffers)[id].isPinned)
    ensures db.fts == old(db.fts) && db.settings == old(db.settings)
  {
    var _ := db.TogglePin(id);
    return Ok(());
  }

  /** `get_buffer_count`: how many buffers are not archived. */
  function GetBufferCount(db: Database): (r: Result<int, string>)
    reads db
    ensures r.Ok? && 0 <= r.value <= |db.buffers|
    ensures r.Ok? && r.value == |LiveIds(db.buffers)|
  {
    Ok(db.GetBufferCount(false))
  }
}
