/**
 * The SQLite database behind flashnotes as one sequential object: the schema
 * that src-tauri/src/db/schema.rs builds, the `buffers` rows with their
 * full-text index kept in step by the triggers, the `settings` key-value
 * table, and the statements of src-tauri/src/db/queries.rs run against them.
 */
module Store {
  import opened Wrappers
  import opened Text
  import opened Decimal
  import opened Rows
  import opened TitlePreview
  import opened SearchQuery

  /**
   * Which of the objects `initialize_schema` creates exist: the `buffers`
   * table, its `sort_order` column, the `settings` table, the sidebar index
   * `idx_buffers_sidebar`, the `buffers_fts` index and the triggers
   * `buffers_ai`, `buffers_ad` and `buffers_au`.
   */
  datatype Schema = Schema(
    buffersTable: bool,
    sortOrderColumn: bool,
    settingsTable: bool,
    sidebarIndex: bool,
    ftsTable: bool,
    insertTrigger: bool,
    deleteTrigger: bool,
    updateTrigger: bool)

  /** A new database file has none of them. */
  const NoSchema: Schema := Schema(false, false, false, false, false, false, false, false)
  /** What `initialize_schema` leaves: all of them. */
  const FullSchema: Schema := Schema(true, true, true, true, true, true, true, true)
  /** A database written before the `sort_order` migration has everything else. */
  const LegacySchema: Schema := FullSchema.(sortOrderColumn := false)

  /** The rows the `INSERT OR IGNORE INTO settings` statement offers. */
  const DefaultSettings: map<string, string> :=
    map["font_family" := "JetBrains Mono", "font_size" := "13", "line_height" := "1.5"]

  /**
   * The one storage error the model produces: inserting a second row under
   * a primary key that is already taken.
   */
  datatype DbError = UniqueViolation(table: string, column: string)

  /** The text rusqlite shows for the error. */
  function ErrorMessage(e: DbError): string {
    "UNIQUE constraint failed: " + e.table + "." + e.column
  }

  /** `Buffer` of queries.rs: a whole row as `get_buffer_content` reads it. */
  datatype Buffer = Buffer(
    id: string,
    content: string,
    createdAt: int,
    updatedAt: int,
    accessedAt: int,
    isArchived: bool,
    isPinned: bool)

  /** `BufferSummary` of queries.rs: one sidebar entry. */
  datatype BufferSummary = BufferSummary(
    id: string,
    title: string,
    preview: string,
    updatedAt: int,
    isPinned: bool)

  /** `SearchResult` of queries.rs. */
  datatype SearchResult = SearchResult(id: string, snippet: string, updatedAt: int)

  /** The string and integer fields of `AppSettings`. */
  datatype AppSettings = AppSettings(fontFamily: string, fontSize: int)

  const DefaultFontFamily: string := "JetBrains Mono"
  const DefaultFontSize: int := 13

  /**
   * The sidebar entry `get_sidebar_buffers` builds from one row: the row's
   * id, time and pin flag, and a title and preview of at most 100 code points
   * taken from its content.
   */
  function Summarize(id: string, row: Row): (s: BufferSummary)
    ensures s.id == id && s.updatedAt == row.updatedAt && s.isPinned == row.isPinned
    ensures |s.title| <= MaxChars && |s.preview| <= MaxChars
  {
    var d := ExtractTitlePreview(row.content);
    BufferSummary(id, d.title, d.preview, row.updatedAt, row.isPinned)
  }

  /** `value.parse().unwrap_or(13)` for the `i32` field `font_size`. */
  function FontSizeOf(value: string): (size: int)
    ensures -I32Bound <= size < I32Bound
  {
    ParseI32(value).GetOr(DefaultFontSize)
  }

  /**
   * What `get_settings` makes of the settings table: each known key
   * overrides its default, a `font_size` that is not an `i32` falls back to
   * 13, and unknown keys are ignored.
   */
  function SettingsFrom(settings: map<string, string>): (r: AppSettings)
    ensures -I32Bound <= r.fontSize < I32Bound
    ensures "font_family" in settings ==> r.fontFamily == settings["font_family"]
    ensures "font_family" !in settings && "font_size" !in settings ==> r == AppSettings(DefaultFontFamily, DefaultFontSize)
  {
    AppSettings(
      if "font_family" in settings then settings["font_family"] else DefaultFontFamily,
      if "font_size" in settings then FontSizeOf(settings["font_size"]) else DefaultFontSize)
  }

  /** The `INSERT OR IGNORE` of the defaults: rows already present win. */
  function SeedDefaults(settings: map<string, string>): (seeded: map<string, string>)
    ensures seeded.Keys == settings.Keys + DefaultSettings.Keys
    ensures forall k :: k in settings ==> seeded[k] == settings[k]
    ensures forall k :: k in DefaultSettings && k !in settings ==> seeded[k] == DefaultSettings[k]
  {
    DefaultSettings + settings
  }

  class Database {
    /** The schema objects that exist. */
    var schema: Schema
    /** The `buffers` table by primary key. */
    var buffers: Table
    /** The `buffers_fts` index by rowid. */
    var fts: Index
    /** The `settings` table. */
    var settings: map<string, string>
    /** Every rowid in use is below this; the next insert takes it. */
    var nextRowid: int

    /**
     * A database file is either new and empty, or was written by a version
     * of the program that had created everything but possibly the
     * `sort_order` column; either way the rows and the index are
     * `Consistent` (a row written before `sort_order` existed reads as its
     * default once the column is added).
     */
    ghost predicate Valid()
      reads this
    {
      ((schema == NoSchema && buffers == map[] && settings == map[])
       || schema == LegacySchema || schema == FullSchema)
      && Consistent(buffers, fts, nextRowid)
    }

    /** The state `initialize_schema` leaves and every query relies on. */
    ghost predicate Ready()
      reads this
    {
      Valid() && schema == FullSchema
    }

    /** A new, empty database file. */
    constructor ()
      ensures Valid()
      ensures schema == NoSchema && buffers == map[] && fts == map[] && settings == map[]
    {
      schema := NoSchema;
      buffers := map[];
      fts := map[];
      settings := map[];
      nextRowid := 1;
    }

    // ---- schema.rs ----

    /** `ALTER TABLE buffers ADD COLUMN sort_order …`: fails when the column exists. */
    method AddSortOrderColumn() returns (r: Result<(), string>)
      modifies this`schema
      ensures r.Err? <==> old(schema).sortOrderColumn
      ensures schema == old(schema).(sortOrderColumn := true)
    {
      if schema.sortOrderColumn {
        return Err("duplicate column name: sort_order");
      }
      schema := schema.(sortOrderColumn := true);
      return Ok(());
    }

    /**
     * `initialize_schema`: creates whatever is missing (a new `buffers`
     * table comes with its `sort_order` column), adds that column to an
     * older table that lacks it, and offers the default
     * settings, keeping any value already stored. Rows and the index are
     * left as they are.
     */
    method InitializeSchema()
      requires Valid()
      modifies this
      ensures Ready()
      ensures buffers == old(buffers) && fts == old(fts) && nextRowid == old(nextRowid)
      ensures settings == SeedDefaults(old(settings))
    {
      if !schema.buffersTable {
        // a table created here already declares the `sort_order` column
        schema := schema.(buffersTable := true, sortOrderColumn := true);
      }
      var _ := AddSortOrderColumn();  // the error is ignored
      schema := schema.(settingsTable := true);
      settings := DefaultSettings + settings;
      schema := schema.(sidebarIndex := true);
      schema := schema.(ftsTable := true);
      schema := schema.(insertTrigger := true);
      schema := schema.(deleteTrigger := true);
      schema := schema.(updateTrigger := true);
    }

    // ---- queries.rs: statements that write ----

    /**
     * `INSERT INTO buffers (id, content, created_at, updated_at, accessed_at)`:
     * a taken id is a UNIQUE violation and changes nothing; otherwise the
     * new row gets the next rowid, the column defaults, and through
     * `buffers_ai` an index entry holding its content.
     */
    method Insert(id: string, values: Insertion) returns (r: Result<(), DbError>)
      requires Ready()
      modifies this
      ensures Ready()
      ensures settings == old(settings)
      ensures id in old(buffers) ==>
        r == Err(UniqueViolation("buffers", "id"))
        && buffers == old(buffers) && fts == old(fts) && nextRowid == old(nextRowid)
      ensures id !in old(buffers) ==>
        r == Ok(())
        && buffers == old(buffers)[id := NewRow(old(nextRowid), values)]
        && nextRowid == old(nextRowid) + 1
        && fts == old(fts)[old(nextRowid) := buffers[id].content]
    {
      if id in buffers {
        return Err(UniqueViolation("buffers", "id"));
      }
      var row := NewRow(nextRowid, values);
      InsertKeepsConsistent(buffers, fts, nextRowid, id, values);
      buffers := buffers[id := row];
      fts := AfterInsert(fts, row);
      nextRowid := nextRowid + 1;
      return Ok(());
    }

    /** `create_buffer`: all three timestamps are the given one. */
    method CreateBuffer(id: string, content: string, timestamp: int) returns (r: Result<(), DbError>)
      requires Ready()
      modifies this
      ensures Ready()
      ensures settings == old(settings)
      ensures r.Err? <==> id in old(buffers)
      ensures r.Err? ==>
        r.error == UniqueViolation("buffers", "id")
        && buffers == old(buffers) && fts == old(fts) && nextRowid == old(nextRowid)
      ensures r.Ok? ==>
        buffers.Keys == old(buffers).Keys + {id}
        && (forall k :: k in old(buffers) ==> buffers[k] == old(buffers)[k])
        && buffers[id].content == content
        && buffers[id].createdAt == timestamp && buffers[id].updatedAt == timestamp
        && buffers[id].accessedAt == timestamp
        && !buffers[id].isArchived && !buffers[id].isPinned
        && fts[buffers[id].rowid] == content
    {
      r := Insert(id, Insertion(Some(content), timestamp, timestamp, timestamp));
    }

    /**
     * `UPDATE buffers SET … WHERE id = ?`, followed by `buffers_au` for the
     * row it changes: reports whether a row had the id.
     */
    method Update(id: string, a: Assignment) returns (affected: bool)
      requires Ready()
      modifies this
      ensures Ready()
      ensures affected == (id in old(buffers))
      ensures buffers == UpdateWhereId(old(buffers), id, a)
      ensures buffers.Keys == old(buffers).Keys
      ensures forall k :: k in old(buffers) && k != id ==> buffers[k] == old(buffers)[k]
      ensures id in old(buffers) ==> buffers[id] == Apply(a, old(buffers)[id])
      ensures !a.SetContent? ==> fts == old(fts)
      ensures settings == old(settings) && nextRowid == old(nextRowid)
    {
      if id !in buffers {
        return false;
      }
      UpdateKeepsConsistent(buffers, fts, nextRowid, id, a);
      fts := AfterUpdate(fts, buffers[id], Apply(a, buffers[id]));
      buffers := UpdateWhereId(buffers, id, a);
      return true;
    }

    /** `update_buffer_content`: only that row's `content` and `updated_at` change. */
    method UpdateBufferContent(id: string, content: string, timestamp: int) returns (affected: bool)
      requires Ready()
      modifies this
      ensures Ready()
      ensures affected == (id in old(buffers))
      ensures buffers.Keys == old(buffers).Keys
      ensures forall k :: k in old(buffers) && k != id ==> buffers[k] == old(buffers)[k]
      ensures id in old(buffers) ==>
        buffers[id] == old(buffers)[id].(content := content, updatedAt := timestamp)
      ensures id in old(buffers) ==> fts[buffers[id].rowid] == content
      ensures settings == old(settings)
    {
      affected := Update(id, SetContent(content, timestamp));
      if affected {
        IndexedContent(buffers, fts, nextRowid, id);
      }
    }

    /** `touch_buffer`: only that row's `accessed_at` changes. */
    method TouchBuffer(id: string, timestamp: int) returns (affected: bool)
      requires Ready()
      modifies this
      ensures Ready()
      ensures affected == (id in old(buffers))
      ensures buffers.Keys == old(buffers).Keys
      ensures forall k :: k in old(buffers) && k != id ==> buffers[k] == old(buffers)[k]
      ensures id in old(buffers) ==> buffers[id] == old(buffers)[id].(accessedAt := timestamp)
      ensures fts == old(fts) && settings == old(settings)
    {
      affected := Update(id, SetAccessedAt(timestamp));
    }

    /**
     * `archive_buffer` (a soft delete): only that row's `is_archived` changes,
     * so it leaves the live set and nothing else does.
     */
    method ArchiveBuffer(id: string) returns (affected: bool)
      requires Ready()
      modifies this
      ensures Ready()
      ensures affected == (id in old(buffers))
      ensures buffers.Keys == old(buffers).Keys
      ensures forall k :: k in old(buffers) && k != id ==> buffers[k] == old(buffers)[k]
      ensures id in old(buffers) ==> buffers[id] == old(buffers)[id].(isArchived := true)
      ensures LiveIds(buffers) == LiveIds(old(buffers)) - {id}
      ensures fts == old(fts) && settings == old(settings)
    {
      ArchiveLiveCount(buffers, id);
      affected := Update(id, SetArchived);
    }

    /** `toggle_pin`: only that row's `is_pinned` changes, to its negation. */
    method TogglePin(id: string) returns (affected: bool)
      requires Ready()
      modifies this
      ensures Ready()
      ensures affected == (id in old(buffers))
      ensures buffers.Keys == old(buffers).Keys
      ensures forall k :: k in old(buffers) && k != id ==> buffers[k] == old(buffers)[k]
      ensures id in old(buffers) ==>
        buffers[id] == old(buffers)[id].(isPinned := !old(buffers)[id].isPinned)
      ensures fts == old(fts) && settings == old(settings)
    {
      affected := Update(id, FlipPinned);
    }

    /**
     * `delete_buffer`: the row goes, and through `buffers_ad` so does its
     * index entry; the other rows stay.
     */
    method DeleteBuffer(id: string) returns (affected: bool)
      requires Ready()
      modifies this
      ensures Ready()
      ensures affected == (id in old(buffers))
      ensures buffers == old(buffers) - {id}
      ensures id in old(buffers) ==> old(buffers)[id].rowid !in fts
      ensures settings == old(settings) && nextRowid == old(nextRowid)
    {
      if id !in buffers {
        return false;
      }
      DeleteKeepsConsistent(buffers, fts, nextRowid, id);
      fts := AfterDelete(fts, buffers[id]);
      buffers := buffers - {id};
      return true;
    }

    /** `set_setting`: `INSERT OR REPLACE` stores the value whether or not the key existed. */
    method SetSetting(key: string, value: string)
      requires Ready()
      modifies this`settings
      ensures Ready()
      ensures settings == old(settings)[key := value]
    {
      settings := settings[key := value];
    }

    // ---- queries.rs: statements that read ----

    /**
     * `get_buffer_content`: the whole row, archived or not, and `None`
     * exactly when no row has the id.
     */
    function GetBufferContent(id: string): (r: Option<Buffer>)
      reads this
      ensures r.None? <==> id !in buffers
      ensures r.Some? ==>
        r.value.id == id && r.value.content == buffers[id].content
        && r.value.isArchived == buffers[id].isArchived && r.value.isPinned == buffers[id].isPinned
        && r.value.createdAt == buffers[id].createdAt && r.value.updatedAt == buffers[id].updatedAt
        && r.value.accessedAt == buffers[id].accessedAt
    {
      if id in buffers then
        var row := buffers[id];
        Some(Buffer(id, row.content, row.createdAt, row.updatedAt, row.accessedAt,
                    row.isArchived, row.isPinned))
      else
        None
    }

    /** `get_buffer_count`: all rows, or only those with `is_archived = 0`. */
    function GetBufferCount(includeArchived: bool): (count: nat)
      reads this
      ensures includeArchived ==> count == |buffers|
      ensures !includeArchived ==> count == |LiveIds(buffers)|
      ensures count <= |buffers|
    {
      var counted := set id | id in buffers && (includeArchived || !buffers[id].isArchived);
      assert buffers.Keys == counted + (buffers.Keys - counted);
      assert includeArchived ==> counted == buffers.Keys;
      assert !includeArchived ==> counted == LiveIds(buffers);
      |counted|
    }

    /**
     * `get_sidebar_buffers`: at most `limit` entries, all of rows that are
     * not archived, no row twice, pinned rows before unpinned ones and, among
     * rows pinned alike, the more recently accessed first. Fewer than `limit`
     * entries only when every live row is listed, and a live row that is
     * left out may be listed after every entry. Ties are in no particular
     * order.
     */
    method GetSidebarBuffers(limit: nat) returns (summaries: seq<BufferSummary>)
      requires Ready()
      ensures |summaries| == Min(limit, |LiveIds(buffers)|)
      ensures forall i :: 0 <= i < |summaries| ==>
        summaries[i].id in LiveIds(buffers) && summaries[i] == Summarize(summaries[i].id, buffers[summaries[i].id])
      ensures forall i, j :: 0 <= i < j < |summaries| ==> summaries[i].id != summaries[j].id
      ensures forall i, j :: 0 <= i < j < |summaries| && summaries[j].isPinned ==> summaries[i].isPinned
      ensures forall i, j :: 0 <= i < j < |summaries| && summaries[i].isPinned == summaries[j].isPinned ==>
        buffers[summaries[i].id].accessedAt >= buffers[summaries[j].id].accessedAt
      ensures forall i, o ::
        0 <= i < |summaries| && o in LiveIds(buffers) && (forall k :: 0 <= k < |summaries| ==> summaries[k].id != o)
        ==> ListedBefore(buffers[summaries[i].id], buffers[o])
    {
      var t := buffers;
      var ids := SelectInOrder(t, LiveIds(t), limit);
      summaries := seq(|ids|, k requires 0 <= k < |ids| => Summarize(ids[k], t[ids[k]]));
      forall i, o | 0 <= i < |summaries| && o in LiveIds(t) && (forall k :: 0 <= k < |summaries| ==> summaries[k].id != o)
        ensures ListedBefore(t[summaries[i].id], t[o])
      {
        forall k | 0 <= k < |ids| ensures ids[k] != o {
          assert summaries[k].id == ids[k];
        }
      }
    }

    /**
     * The live rows that the join of `buffers_fts` with `buffers` finds for
     * `safe`: an index entry that matches, joined on rowid to a row with
     * `is_archived = 0`.
     */
    function Matching(safe: string, matches: (string, string) -> bool): (m: set<string>)
      reads this
      ensures m <= LiveIds(buffers)
    {
      set id | id in buffers && !buffers[id].isArchived && buffers[id].rowid in fts
        && matches(safe, fts[buffers[id].rowid])
    }

    /** Because the index mirrors the table, the join finds exactly the live rows whose content matches. */
    lemma MatchingIsLiveContent(safe: string, matches: (string, string) -> bool)
      requires Ready()
      ensures Matching(safe, matches) == set id | id in LiveIds(buffers) && matches(safe, buffers[id].content)
    {
      forall id | id in buffers
        ensures id in Matching(safe, matches) <==> id in LiveIds(buffers) && matches(safe, buffers[id].content)
      {
        assert Has(buffers, id);
      }
    }

    /**
     * `search_buffers`. A blank query finds nothing. Otherwise the query is
     * rewritten by `SafeQuery`, and the result holds at most `limit` distinct
     * live rows whose content matches it, each with its highlighted snippet;
     * fewer than `limit` only when every such row is there. What "matches"
     * and the snippet text mean, and the rank order, belong to FTS5 and are
     * parameters here.
     */
    method SearchBuffers(query: string, limit: nat, matches: (string, string) -> bool,
                         highlight: (string, string) -> string)
      returns (results: seq<SearchResult>)
      requires Ready()
      ensures IsBlank(query) ==> results == []
      ensures !IsBlank(query) ==> |results| == Min(limit, |Matching(SafeQuery(query), matches)|)
      ensures forall i :: 0 <= i < |results| ==>
        var id := results[i].id;
        id in LiveIds(buffers) && matches(SafeQuery(query), buffers[id].content)
        && results[i] == SearchResult(id, highlight(SafeQuery(query), buffers[id].content), buffers[id].updatedAt)
      ensures forall i, j :: 0 <= i < j < |results| ==> results[i].id != results[j].id
      ensures !IsBlank(query) && |results| < limit ==>
        forall id :: id in LiveIds(buffers) && matches(SafeQuery(query), buffers[id].content) ==>
          exists i :: 0 <= i < |results| && results[i].id == id
    {
      if Trim(query) == [] {
        return [];
      }
      var safe := SafeQuery(query);
      MatchingIsLiveContent(safe, matches);
      var t := buffers;
      var ids := SelectAny(Matching(safe, matches), limit);
      results := seq(|ids|, k requires 0 <= k < |ids| =>
        SearchResult(ids[k], highlight(safe, t[ids[k]].content), t[ids[k]].updatedAt));
      forall id | id in LiveIds(t) && matches(safe, t[id].content) && |results| < limit
        ensures exists i :: 0 <= i < |results| && results[i].id == id
      {
        assert id in Matching(safe, matches);
        var i :| 0 <= i < |ids| && ids[i] == id;
        assert results[i].id == id;
      }
    }

    /**
     * `get_settings`: starts from the defaults and lets each stored row
     * override its field, in whatever order the rows come; the result is
     * `SettingsFrom(settings)` whatever that order.
     */
    method GetSettings() returns (app: AppSettings)
      requires Ready()
      ensures app == SettingsFrom(settings)
    {
      app := AppSettings(DefaultFontFamily, DefaultFontSize);
      var pending := settings.Keys;
      while pending != {}
        invariant pending <= settings.Keys
        invariant app.fontFamily ==
          if "font_family" in settings && "font_family" !in pending then settings["font_family"] else DefaultFontFamily
        invariant app.fontSize ==
          if "font_size" in settings && "font_size" !in pending then FontSizeOf(settings["font_size"]) else DefaultFontSize
        decreases |pending|
      {
        var key :| key in pending;
        var value := settings[key];
        if key == "font_family" {
          app := app.(fontFamily := value);
        } else if key == "font_size" {
          app := app.(fontSize := FontSizeOf(value));
        }
        pending := pending - {key};
      }
    }
  }

  // ---- Properties ----

  /** Offering the defaults a second time changes nothing: `initialize_schema` is idempotent on settings. */
  lemma SeedDefaultsIdempotent(settings: map<string, string>)
    ensures SeedDefaults(SeedDefaults(settings)) == SeedDefaults(settings)
    ensures DefaultSettings.Keys <= settings.Keys ==> SeedDefaults(settings) == settings
  {
    var once := SeedDefaults(settings);
    assert SeedDefaults(once).Keys == once.Keys;
    if DefaultSettings.Keys <= settings.Keys {
      assert SeedDefaults(settings).Keys == settings.Keys;
    }
  }

  /** A fresh database's settings read back as the compiled-in defaults. */
  lemma FreshSettings()
    ensures SettingsFrom(SeedDefaults(map[])) == AppSettings(DefaultFontFamily, DefaultFontSize)
  {
    assert SeedDefaults(map[]) == DefaultSettings;
    assert "13" == Format(13);
    ParseFormatI32(13);
  }

  /** A font size stored as a decimal `i32` reads back as that size. */
  lemma FontSizeRoundTrip(settings: map<string, string>, n: nat)
    requires n < I32Bound
    ensures SettingsFrom(settings["font_size" := Format(n)]).fontSize == n
    ensures SettingsFrom(settings["font_size" := Format(n)]).fontFamily == SettingsFrom(settings).fontFamily
  {
    ParseFormatI32(n);
  }

  /** A font size that does not parse as an `i32` reads as 13. */
  lemma FontSizeFallback(settings: map<string, string>, value: string)
    requires ParseI32(value).None?
    ensures SettingsFrom(settings["font_size" := value]).fontSize == DefaultFontSize
  {
  }
}
