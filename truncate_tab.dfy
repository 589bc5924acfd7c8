/**
 * The Truncate Tables tab (`tabs/truncate_tab.py`): pick a database and a
 * schema, list the schema's tables with the `qgis_projects` table spared
 * by default, and ask the manager to empty the rest after confirmation.
 */
module Truncate {
  import opened Text
  import opened BaseTab

  const QgisProjectsTable := "qgis_projects"

  /** A table the tab leaves alone: `qgis_projects` while the exclusion box
      is checked. */
  predicate Spared(table: string, exclude: bool) {
    exclude && table == QgisProjectsTable
  }

  // ---------------------------------------------------------------------
  // Which tables are emptied
  // ---------------------------------------------------------------------

  /** The tables `truncate_tables` sends, in list order. */
  function ToTruncate(tables: seq<string>, exclude: bool): (r: seq<string>)
    ensures |r| <= |tables|
    ensures forall t | t in r :: t in tables && !Spared(t, exclude)
    ensures forall k | 0 <= k < |tables| && !Spared(tables[k], exclude) :: tables[k] in r
  {
    if tables == [] then []
    else
      var init := ToTruncate(tables[..|tables| - 1], exclude);
      var t := tables[|tables| - 1];
      assert forall k | 0 <= k < |tables| - 1 :: tables[..|tables| - 1][k] == tables[k];
      if Spared(t, exclude) then init else init + [t]
  }

  /** The tables `truncate_tables` lists as excluded. */
  function SparedTables(tables: seq<string>, exclude: bool): (r: seq<string>)
    ensures forall t | t in r :: Spared(t, exclude)
    ensures |r| + |ToTruncate(tables, exclude)| == |tables|
  {
    if tables == [] then []
    else
      var init := SparedTables(tables[..|tables| - 1], exclude);
      var t := tables[|tables| - 1];
      if Spared(t, exclude) then init + [t] else init
  }

  /** What the partition loop holds once it has sorted the first `i`
      tables. */
  predicate PartitionLoop(tables: seq<string>, exclude: bool, i: nat, excluded: seq<string>, toTruncate: seq<string>)
    requires i <= |tables|
  {
    excluded == SparedTables(tables[..i], exclude) && toTruncate == ToTruncate(tables[..i], exclude)
  }

  /** Sorting one more table extends the list it belongs to. */
  lemma PartitionStep(tables: seq<string>, exclude: bool, i: nat, excluded: seq<string>, toTruncate: seq<string>)
    requires i < |tables| && PartitionLoop(tables, exclude, i, excluded, toTruncate)
    ensures Spared(tables[i], exclude) ==> PartitionLoop(tables, exclude, i + 1, excluded + [tables[i]], toTruncate)
    ensures !Spared(tables[i], exclude) ==> PartitionLoop(tables, exclude, i + 1, excluded, toTruncate + [tables[i]])
  {
    SparedPrefix(tables, exclude, i);
    ToTruncateSeqPrefix(tables, exclude, i);
  }

  lemma SparedPrefix(tables: seq<string>, exclude: bool, i: nat)
    requires i < |tables|
    ensures SparedTables(tables[..i + 1], exclude) ==
      SparedTables(tables[..i], exclude) + (if Spared(tables[i], exclude) then [tables[i]] else [])
  {
    assert tables[..i + 1][..i] == tables[..i];
  }

  lemma ToTruncateSeqPrefix(tables: seq<string>, exclude: bool, i: nat)
    requires i < |tables|
    ensures ToTruncate(tables[..i + 1], exclude) ==
      ToTruncate(tables[..i], exclude) + (if Spared(tables[i], exclude) then [] else [tables[i]])
  {
    assert tables[..i + 1][..i] == tables[..i];
  }

  /** Every table lands on exactly one side: the two lists together are the
      listed tables, as a multiset. */
  lemma {:induction false} PartitionIsPermutation(tables: seq<string>, exclude: bool)
    ensures multiset(ToTruncate(tables, exclude)) + multiset(SparedTables(tables, exclude)) == multiset(tables)
  {
    if tables != [] {
      var init := tables[..|tables| - 1];
      PartitionIsPermutation(init, exclude);
      assert tables == init + [tables[|tables| - 1]];
    }
  }

  /** With the box unchecked nothing is spared. */
  lemma {:induction false} NothingSparedUnchecked(tables: seq<string>)
    ensures ToTruncate(tables, false) == tables && SparedTables(tables, false) == []
  {
    if tables != [] {
      NothingSparedUnchecked(tables[..|tables| - 1]);
      assert tables == tables[..|tables| - 1] + [tables[|tables| - 1]];
    }
  }

  /** `[f"{schema}.{table}" for table in tables]`. */
  function Qualified(schema: string, tables: seq<string>): (r: seq<string>)
    ensures |r| == |tables|
    ensures forall k | 0 <= k < |tables| :: r[k] == schema + "." + tables[k]
  {
    seq(|tables|, k requires 0 <= k < |tables| => schema + "." + tables[k])
  }

  /** A qualified name reads back, at its first dot, as the schema and the
      table, whenever the schema name has no dot. */
  lemma QualifiedSplits(schema: string, tables: seq<string>, k: nat)
    requires '.' !in schema && k < |tables|
    ensures SplitOnce(Qualified(schema, tables)[k], ".") == Some((schema, tables[k]))
  {
    var s := schema + "." + tables[k];
    forall i | 0 <= i < |schema| ensures !OccursAt(s, ".", i) {
      OccursIndex(s, ".", i, 0);
      assert s[i] == schema[i];
    }
    SplitOnceAt(s, schema, ".", tables[k]);
  }

  /** The spared table never reaches the fallback call either. */
  lemma QualifiedSpares(schema: string, tables: seq<string>)
    ensures schema + "." + QgisProjectsTable !in Qualified(schema, ToTruncate(tables, true))
  {
    var sent := ToTruncate(tables, true);
    forall k | 0 <= k < |sent| ensures Qualified(schema, sent)[k] != schema + "." + QgisProjectsTable {
      var p := schema + ".";
      assert sent[k] in sent;
      assert (p + sent[k])[|p|..] == sent[k];
      assert (p + QgisProjectsTable)[|p|..] == QgisProjectsTable;
    }
  }

  // ---------------------------------------------------------------------
  // The preview table
  // ---------------------------------------------------------------------

  datatype Mark = Excluded | WillBeTruncated

  /** The preview rows `update_tables_display` writes. */
  function Marks(tables: seq<string>, exclude: bool): (r: seq<(string, Mark)>)
    ensures |r| == |tables|
    ensures forall k | 0 <= k < |tables| ::
      r[k] == (tables[k], if Spared(tables[k], exclude) then Excluded else WillBeTruncated)
  {
    if tables == [] then []
    else
      var t := tables[|tables| - 1];
      Marks(tables[..|tables| - 1], exclude) + [(t, if Spared(t, exclude) then Excluded else WillBeTruncated)]
  }

  /** What the preview loop holds after the first `i` tables. */
  predicate MarkLoop(tables: seq<string>, exclude: bool, i: nat, shown: seq<(string, Mark)>, count: nat)
    requires i <= |tables|
  {
    shown == Marks(tables[..i], exclude) && count == |ToTruncate(tables[..i], exclude)|
  }

  /** One more table adds its mark, and counts when it is to be emptied. */
  lemma MarkStep(tables: seq<string>, exclude: bool, i: nat, shown: seq<(string, Mark)>, count: nat)
    requires i < |tables| && MarkLoop(tables, exclude, i, shown, count)
    ensures Spared(tables[i], exclude) ==> MarkLoop(tables, exclude, i + 1, shown + [(tables[i], Excluded)], count)
    ensures !Spared(tables[i], exclude) ==>
      MarkLoop(tables, exclude, i + 1, shown + [(tables[i], WillBeTruncated)], count + 1)
  {
    MarksPrefix(tables, exclude, i);
    ToTruncatePrefix(tables, exclude, i);
  }

  lemma MarksPrefix(tables: seq<string>, exclude: bool, i: nat)
    requires i < |tables|
    ensures Marks(tables[..i + 1], exclude) ==
      Marks(tables[..i], exclude) + [(tables[i], if Spared(tables[i], exclude) then Excluded else WillBeTruncated)]
  {
    assert tables[..i + 1][..i] == tables[..i];
  }

  lemma ToTruncatePrefix(tables: seq<string>, exclude: bool, i: nat)
    requires i < |tables|
    ensures |ToTruncate(tables[..i + 1], exclude)| ==
      |ToTruncate(tables[..i], exclude)| + (if Spared(tables[i], exclude) then 0 else 1)
  {
    assert tables[..i + 1][..i] == tables[..i];
  }

  /** The status line for `n` tables to truncate. */
  function DisplayStatus(n: nat): (s: string)
    ensures n > 0 ==> StartsWith(s, "Ready to truncate ")
    ensures n == 0 ==> s == "No tables selected for truncation"
  {
    if n > 0 then "Ready to truncate " + NatToDecimal(n) + " table(s)"
    else "No tables selected for truncation"
  }

  /** The messages the tab puts in its status label. */
  datatype Status =
    | NoStatus
    | ReadyCount(n: nat)
    | SelectBoth
    | ConnectionFailed
    | MethodMissing
    | ListingError(error: string)
    | NoTablesIn(schema: string)
    | SelectedSchema(schema: string)
    | SelectSchema
    | SelectedDatabase(database: string)
    | SelectDatabaseAndSchema

  /** The wording of each message. */
  function StatusText(st: Status): string {
    match st
    case NoStatus => ""
    case ReadyCount(n) => DisplayStatus(n)
    case SelectBoth => "Please select both database and schema"
    case ConnectionFailed => "Connection check failed"
    case MethodMissing => "Database manager method not found"
    case ListingError(e) => "Error: " + e
    case NoTablesIn(schema) => "No tables found in schema '" + schema + "'"
    case SelectedSchema(schema) => "Selected schema: " + schema
    case SelectSchema => "Select a schema to view tables"
    case SelectedDatabase(database) => "Selected database: " + database
    case SelectDatabaseAndSchema => "Select a database and schema to view tables"
  }

  /** Two different counts never show the same status line. */
  lemma DisplayStatusDistinct(a: nat, b: nat)
    ensures DisplayStatus(a) == DisplayStatus(b) ==> a == b
  {
    if a > 0 && b > 0 && DisplayStatus(a) == DisplayStatus(b) {
      var p := "Ready to truncate ";
      var sa := NatToDecimal(a);
      var sb := NatToDecimal(b);
      assert (p + sa + " table(s)")[|p|..|p| + |sa|] == sa;
      assert (p + sb + " table(s)")[|p|..|p| + |sb|] == sb;
      assert |sa| == |sb|;
      DecimalInjective(a, b);
    } else if a > 0 && b == 0 {
      assert DisplayStatus(a)[0] == 'R';
    } else if a == 0 && b > 0 {
      assert DisplayStatus(b)[0] == 'R';
    }
  }

  // ---------------------------------------------------------------------
  // What the manager returns for the table list
  // ---------------------------------------------------------------------

  /** One element of the returned list: a string, or anything else. */
  datatype TableItem = StrItem(text: string) | OtherItem

  /** What `get_schema_tables` (or its fallback) gave back. */
  datatype TableListing =
    | Listed(items: seq<TableItem>)
    | ReturnedNone
    | NotAList
    | NoTableMethod
    | Raised(error: string)

  /** `[t.strip() for t in tables if t and isinstance(t, str) and t.strip()]`. */
  function ValidTables(items: seq<TableItem>): (r: seq<string>)
    ensures |r| <= |items|
  {
    if items == [] then []
    else
      var init := ValidTables(items[..|items| - 1]);
      match items[|items| - 1] {
        case OtherItem => init
        case StrItem(t) => if Strip(t) != [] then init + [Strip(t)] else init
      }
  }

  /** Only non-blank strings are kept, each stripped, and every such string
      is kept. */
  lemma ValidTablesSpec(items: seq<TableItem>)
    ensures forall t | t in ValidTables(items) :: t != [] && Strip(t) == t
    ensures forall k | 0 <= k < |items| && items[k].StrItem? && Strip(items[k].text) != [] ::
      Strip(items[k].text) in ValidTables(items)
  {
    ValidTablesStripped(items);
    ValidTablesComplete(items);
  }

  lemma {:induction false} ValidTablesStripped(items: seq<TableItem>)
    ensures forall t | t in ValidTables(items) :: t != [] && Strip(t) == t
  {
    if items != [] {
      var init := items[..|items| - 1];
      var last := items[|items| - 1];
      ValidTablesStripped(init);
      if last.StrItem? && Strip(last.text) != [] {
        var x := Strip(last.text);
        StripIdempotent(last.text);
        assert ValidTables(items) == ValidTables(init) + [x];
        forall t | t in ValidTables(items) ensures t != [] && Strip(t) == t {
          if t != x {
            assert t in ValidTables(init);
          }
        }
      } else {
        assert ValidTables(items) == ValidTables(init);
      }
    }
  }

  lemma {:induction false} ValidTablesComplete(items: seq<TableItem>)
    ensures forall k | 0 <= k < |items| && items[k].StrItem? && Strip(items[k].text) != [] ::
      Strip(items[k].text) in ValidTables(items)
  {
    if items != [] {
      var init := items[..|items| - 1];
      ValidTablesComplete(init);
      assert forall k | 0 <= k < |items| - 1 :: init[k] == items[k];
    }
  }

  /** What the filtering loop holds after the first `i` items. */
  predicate CollectLoop(items: seq<TableItem>, i: nat, valid: seq<string>)
    requires i <= |items|
  {
    valid == ValidTables(items[..i])
  }

  /** One more item keeps the loop's result equal to `ValidTables`. */
  lemma CollectStep(items: seq<TableItem>, i: nat, valid: seq<string>)
    requires i < |items| && CollectLoop(items, i, valid)
    ensures items[i].StrItem? && Strip(items[i].text) != [] ==>
      CollectLoop(items, i + 1, valid + [Strip(items[i].text)])
    ensures !(items[i].StrItem? && Strip(items[i].text) != []) ==> CollectLoop(items, i + 1, valid)
  {
    assert items[..i + 1][..i] == items[..i];
  }

  /** The tables the tab lists for a listing. */
  function ListedTables(listing: TableListing): (r: seq<string>)
    ensures !listing.Listed? ==> r == []
  {
    if listing.Listed? then ValidTables(listing.items) else []
  }

  /** Which truncation call the manager offers, in the order the tab asks. */
  datatype TruncateMethod = SchemaTablesMethod | DatabaseTablesMethod | NoTruncateMethod

  datatype Refusal = NoDatabase | NoSchema | NotConnected | NothingToTruncate

  datatype Request =
    | TruncateSchemaTables(database: string, schema: string, tables: seq<string>)
    | TruncateDatabaseTables(database: string, qualifiedTables: seq<string>)

  datatype Outcome = Refused(reason: Refusal) | Cancelled | Unavailable | Dispatched(request: Request)

  /** `truncate_tables`: the guards in order, then the confirmation, then
      the call the manager offers. */
  function TruncateDecision(m: DbManager, db: string, schema: string, tables: seq<string>, exclude: bool,
                            confirmed: bool, offered: TruncateMethod): (r: Outcome)
    ensures r == Refused(NoDatabase) <==> db == ""
    ensures r == Refused(NoSchema) <==> db != "" && schema == ""
    ensures r == Refused(NotConnected) <==> db != "" && schema != "" && !CheckConnection(m)
    ensures r == Refused(NothingToTruncate) <==>
      db != "" && schema != "" && CheckConnection(m) && ToTruncate(tables, exclude) == []
    ensures !r.Refused? ==> (r.Cancelled? <==> !confirmed) && (r.Unavailable? <==> confirmed && offered == NoTruncateMethod)
    ensures r.Dispatched? ==>
      var sent := ToTruncate(tables, exclude);
      sent != [] &&
      r.request == (if offered == SchemaTablesMethod then TruncateSchemaTables(db, schema, sent)
                    else TruncateDatabaseTables(db, Qualified(schema, sent)))
  {
    var sent := ToTruncate(tables, exclude);
    if db == "" then Refused(NoDatabase)
    else if schema == "" then Refused(NoSchema)
    else if !CheckConnection(m) then Refused(NotConnected)
    else if sent == [] then Refused(NothingToTruncate)
    else if !confirmed then Cancelled
    else match offered {
      case SchemaTablesMethod => Dispatched(TruncateSchemaTables(db, schema, sent))
      case DatabaseTablesMethod => Dispatched(TruncateDatabaseTables(db, Qualified(schema, sent)))
      case NoTruncateMethod => Unavailable
    }
  }

  /** While the box is checked, no call the tab makes names `qgis_projects`. */
  lemma SparedNeverSent(m: DbManager, db: string, schema: string, tables: seq<string>,
                        confirmed: bool, offered: TruncateMethod)
    ensures var r := TruncateDecision(m, db, schema, tables, true, confirmed, offered);
      r.Dispatched? ==>
        match r.request
        case TruncateSchemaTables(_, _, sent) => QgisProjectsTable !in sent
        case TruncateDatabaseTables(_, sent) => schema + "." + QgisProjectsTable !in sent
  {
    QualifiedSpares(schema, tables);
  }

  /** `on_operation_finished`: a success whose message mentions truncation,
      in any case, refreshes the table list. */
  function TruncateFinished(success: bool, message: string): (refresh: bool)
    ensures refresh <==> success && Contains(Lower(message), "truncate")
  {
    success && Contains(Lower(message), "truncate")
  }

  lemma TruncateFinishedIgnoresCase(success: bool, message: string)
    ensures TruncateFinished(success, Lower(message)) == TruncateFinished(success, message)
  {
    LowerIdempotent(message);
  }

  /** The sequence of databases kept by `refresh_databases`. */
  function NonSystem(databases: seq<string>, isSystem: string -> bool): (r: seq<string>)
    ensures |r| <= |databases|
    ensures forall d | d in r :: d in databases && !isSystem(d)
    ensures forall k | 0 <= k < |databases| && !isSystem(databases[k]) :: databases[k] in r
  {
    if databases == [] then []
    else
      var init := NonSystem(databases[..|databases| - 1], isSystem);
      var d := databases[|databases| - 1];
      assert forall k | 0 <= k < |databases| - 1 :: databases[..|databases| - 1][k] == databases[k];
      if isSystem(d) then init else init + [d]
  }

  /** What `get_database_schemas` gave back; without the method the tab
      falls back to `public`. */
  datatype SchemaListing = Schemas(names: seq<string>) | NoSchemaMethod | SchemaQueryRaised

  // ---------------------------------------------------------------------
  // The tab's state
  // ---------------------------------------------------------------------

  class TruncateTablesTab {
    var databases: seq<string>
    var databaseText: string
    var schemas: seq<string>
    var schemaText: string
    var schemaEnabled: bool
    var tables: seq<string>
    var rows: seq<(string, Mark)>
    var exclude: bool
    var truncateEnabled: bool
    var status: Status

    /** The preview and the button always describe the current tables. */
    ghost predicate Valid()
      reads this`rows, this`tables, this`exclude, this`truncateEnabled
    {
      rows == Marks(tables, exclude) && (truncateEnabled <==> ToTruncate(tables, exclude) != [])
    }

    constructor()
      ensures Valid() && exclude && tables == [] && !truncateEnabled && !schemaEnabled
      ensures databases == [] && databaseText == "" && schemas == [] && schemaText == ""
    {
      databases := [];
      databaseText := "";
      schemas := [];
      schemaText := "";
      schemaEnabled := false;
      tables := [];
      rows := [];
      exclude := true;
      truncateEnabled := false;
      status := NoStatus;
    }

    /** `update_tables_display`. */
    method UpdateTablesDisplay()
      modifies this
      ensures Valid() && tables == old(tables) && exclude == old(exclude)
      ensures status == ReadyCount(|ToTruncate(tables, exclude)|)
      ensures databases == old(databases) && databaseText == old(databaseText)
      ensures schemas == old(schemas) && schemaText == old(schemaText) && schemaEnabled == old(schemaEnabled)
    {
      var shown, count := MarkTables(tables, exclude);
      rows := shown;
      truncateEnabled := count > 0;
      status := ReadyCount(count);
    }

    /** The loop of `update_tables_display`: one row per table, counting
        the tables that will be emptied. */
    static method MarkTables(tables: seq<string>, exclude: bool) returns (shown: seq<(string, Mark)>, count: nat)
      ensures shown == Marks(tables, exclude)
      ensures count == |ToTruncate(tables, exclude)|
    {
      shown := [];
      count := 0;
      var i := 0;
      while i < |tables|
        invariant 0 <= i <= |tables|
        invariant MarkLoop(tables, exclude, i, shown, count)
      {
        MarkStep(tables, exclude, i, shown, count);
        if tables[i] == QgisProjectsTable && exclude {
          shown := shown + [(tables[i], Excluded)];
        } else {
          shown := shown + [(tables[i], WillBeTruncated)];
          count := count + 1;
        }
        i := i + 1;
      }
      assert tables[..i] == tables;
    }

    /** Toggling the exclusion box redraws the preview. */
    method SetExclude(checked: bool)
      modifies this
      ensures Valid() && exclude == checked && tables == old(tables)
      ensures status == ReadyCount(|ToTruncate(tables, checked)|)
    {
      exclude := checked;
      UpdateTablesDisplay();
    }

    /** Emptying the table list, as the tab does before and after a query. */
    method ClearTables()
      modifies this
      ensures Valid() && tables == [] && !truncateEnabled && exclude == old(exclude)
      ensures status == old(status)
      ensures databases == old(databases) && databaseText == old(databaseText)
      ensures schemas == old(schemas) && schemaText == old(schemaText) && schemaEnabled == old(schemaEnabled)
    {
      tables := [];
      rows := [];
      truncateEnabled := false;
    }

    /** `refresh_tables`, given what the manager answers. */
    method RefreshTables(m: DbManager, listing: TableListing)
      requires Valid()
      modifies this
      ensures Valid() && exclude == old(exclude)
      ensures databases == old(databases) && databaseText == old(databaseText)
      ensures schemas == old(schemas) && schemaText == old(schemaText) && schemaEnabled == old(schemaEnabled)
      ensures databaseText == "" || schemaText == "" ==>
        tables == old(tables) && status == SelectBoth
      ensures databaseText != "" && schemaText != "" && !CheckConnection(m) ==>
        tables == old(tables) && status == ConnectionFailed
      ensures databaseText != "" && schemaText != "" && CheckConnection(m) ==>
        tables == ListedTables(listing)
      ensures databaseText != "" && schemaText != "" && CheckConnection(m) && listing.NoTableMethod? ==>
        status == MethodMissing
      ensures databaseText != "" && schemaText != "" && CheckConnection(m) && listing.Raised? ==>
        status == ListingError(listing.error)
      ensures (databaseText != "" && schemaText != "" && CheckConnection(m) &&
               !listing.NoTableMethod? && !listing.Raised? && tables == []) ==>
        status == NoTablesIn(schemaText)
      ensures (databaseText != "" && schemaText != "" && CheckConnection(m) &&
               !listing.NoTableMethod? && !listing.Raised? && tables != []) ==>
        status == ReadyCount(|ToTruncate(tables, exclude)|)
    {
      if databaseText == "" || schemaText == "" {
        status := SelectBoth;
        return;
      }
      if !CheckConnection(m) {
        status := ConnectionFailed;
        return;
      }
      ClearTables();
      if listing.NoTableMethod? {
        status := MethodMissing;
      } else if listing.Raised? {
        status := ListingError(listing.error);
      } else {
        var items: seq<TableItem> := [];
        if listing.Listed? {
          items := listing.items;
        }
        var valid := CollectValidTables(items);
        tables := valid;
        UpdateTablesDisplay();
        if valid == [] {
          status := NoTablesIn(schemaText);
        }
      }
    }

    /** The filtering loop of `refresh_tables`. */
    static method CollectValidTables(items: seq<TableItem>) returns (valid: seq<string>)
      ensures valid == ValidTables(items)
    {
      valid := [];
      var i := 0;
      while i < |items|
        invariant 0 <= i <= |items|
        invariant CollectLoop(items, i, valid)
      {
        CollectStep(items, i, valid);
        var item := items[i];
        if item.StrItem? && item.text != [] && Strip(item.text) != [] {
          valid := valid + [Strip(item.text)];
        }
        i := i + 1;
      }
      assert items[..i] == items;
    }

    /** `on_schema_changed`, with the listing for the new schema. */
    method OnSchemaChanged(m: DbManager, listing: TableListing)
      requires Valid()
      modifies this
      ensures Valid() && exclude == old(exclude) && schemaText == old(schemaText)
      ensures schemaText == "" ==> tables == [] && !truncateEnabled && status == SelectSchema
      ensures schemaText != "" && databaseText != "" && CheckConnection(m) ==> tables == ListedTables(listing)
      ensures schemaText != "" && (databaseText == "" || !CheckConnection(m)) ==> tables == [] && !truncateEnabled
    {
      ClearTables();
      if schemaText != "" {
        status := SelectedSchema(schemaText);
        RefreshTables(m, listing);
      } else {
        status := SelectSchema;
      }
    }

    /** `on_database_changed` followed by `refresh_schemas`. The schema
        box's own change signal, which then lists the tables, is the
        separate call `OnSchemaChanged`. */
    method OnDatabaseChanged(m: DbManager, listing: SchemaListing)
      requires Valid()
      modifies this
      ensures Valid() && tables == [] && !truncateEnabled && exclude == old(exclude)
      ensures databases == old(databases) && databaseText == old(databaseText)
      ensures databaseText == "" || !CheckConnection(m) || listing.SchemaQueryRaised? ==>
        schemas == [] && schemaText == "" && !schemaEnabled
      ensures databaseText != "" && CheckConnection(m) && !listing.SchemaQueryRaised? ==>
        var names := if listing.Schemas? then listing.names else ["public"];
        schemas == names && schemaEnabled &&
        schemaText == (if "public" in names then "public" else Refilled(names))
    {
      schemas := [];
      ClearTables();
      schemaText := "";
      schemaEnabled := false;
      if databaseText != "" {
        status := SelectedDatabase(databaseText);
        RefreshSchemas(m, listing);
      } else {
        status := SelectDatabaseAndSchema;
      }
    }

    /** `refresh_schemas`, given what `get_database_schemas` answers: the
        box is refilled and `public` is chosen when listed; a query that
        raises leaves the schema state as it was. */
    method RefreshSchemas(m: DbManager, listing: SchemaListing)
      modifies this`schemas, this`schemaText, this`schemaEnabled
      ensures databaseText == "" || !CheckConnection(m) || listing.SchemaQueryRaised? ==>
        schemas == old(schemas) && schemaText == old(schemaText) && schemaEnabled == old(schemaEnabled)
      ensures databaseText != "" && CheckConnection(m) && !listing.SchemaQueryRaised? ==>
        var names := if listing.Schemas? then listing.names else ["public"];
        schemas == names && schemaEnabled &&
        schemaText == (if "public" in names then "public" else Refilled(names))
    {
      if databaseText == "" || !CheckConnection(m) || listing.SchemaQueryRaised? {
        return;
      }
      var names := if listing.Schemas? then listing.names else ["public"];
      schemas := names;
      schemaText := Refilled(names);
      schemaEnabled := true;
      if "public" in names {
        schemaText := "public";
      }
    }

    /** `refresh_databases`: the system databases are dropped, and the
        previous choice survives when it is still listed. */
    method RefreshDatabases(available: seq<string>, isSystem: string -> bool)
      modifies this
      ensures databases == NonSystem(available, isSystem)
      ensures databaseText == RestoredSelection(old(databaseText), databases)
      ensures tables == old(tables) && rows == old(rows) && exclude == old(exclude)
      ensures truncateEnabled == old(truncateEnabled)
      ensures schemas == old(schemas) && schemaText == old(schemaText) && schemaEnabled == old(schemaEnabled)
    {
      var previous := databaseText;
      var kept: seq<string> := [];
      var i := 0;
      while i < |available|
        invariant 0 <= i <= |available|
        invariant kept == NonSystem(available[..i], isSystem)
      {
        assert available[..i + 1][..i] == available[..i];
        if !isSystem(available[i]) {
          kept := kept + [available[i]];
        }
        i := i + 1;
      }
      assert available[..i] == available;
      databases := kept;
      databaseText := RestoredSelection(previous, kept);
    }

    /** `truncate_tables`, with the answer given to the confirmation dialog
        and the truncation call the manager offers. */
    method TruncateTables(m: DbManager, confirmed: bool, offered: TruncateMethod) returns (r: Outcome)
      ensures r == TruncateDecision(m, databaseText, schemaText, tables, exclude, confirmed, offered)
    {
      if databaseText == "" {
        return Refused(NoDatabase);
      }
      if schemaText == "" {
        return Refused(NoSchema);
      }
      if !CheckConnection(m) {
        return Refused(NotConnected);
      }
      var excluded, toTruncate := Partition(tables, exclude);
      if toTruncate == [] {
        return Refused(NothingToTruncate);
      }
      if !confirmed {
        return Cancelled;
      }
      match offered {
        case SchemaTablesMethod =>
          r := Dispatched(TruncateSchemaTables(databaseText, schemaText, toTruncate));
        case DatabaseTablesMethod =>
          r := Dispatched(TruncateDatabaseTables(databaseText, Qualified(schemaText, toTruncate)));
        case NoTruncateMethod =>
          r := Unavailable;
      }
    }

    /** The partition loop of `truncate_tables`. */
    static method Partition(tables: seq<string>, exclude: bool) returns (excluded: seq<string>, toTruncate: seq<string>)
      ensures excluded == SparedTables(tables, exclude)
      ensures toTruncate == ToTruncate(tables, exclude)
    {
      excluded := [];
      toTruncate := [];
      var i := 0;
      while i < |tables|
        invariant 0 <= i <= |tables|
        invariant PartitionLoop(tables, exclude, i, excluded, toTruncate)
      {
        PartitionStep(tables, exclude, i, excluded, toTruncate);
        if Spared(tables[i], exclude) {
          excluded := excluded + [tables[i]];
        } else {
          toTruncate := toTruncate + [tables[i]];
        }
        i := i + 1;
      }
      assert tables[..i] == tables;
    }

    /** `on_operation_finished`, with the listing the refresh would get. */
    method OnOperationFinished(m: DbManager, success: bool, message: string, listing: TableListing)
      requires Valid()
      modifies this
      ensures Valid()
      ensures !TruncateFinished(success, message) ==> tables == old(tables) && status == old(status)
      ensures TruncateFinished(success, message) && databaseText != "" && schemaText != "" && CheckConnection(m) ==>
        tables == ListedTables(listing)
    {
      if TruncateFinished(success, message) {
        RefreshTables(m, listing);
      }
    }
  }
}
