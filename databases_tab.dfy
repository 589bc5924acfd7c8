/**
 * The Databases tab (`tabs/databases_tab.py`): the table of databases and
 * their comments, creating a database from a template, and deleting the
 * selected database behind a dialog that asks for its name to be typed.
 * The manager's work is what the tab asks of it: a `Request`.
 */
module Databases {
  import opened Text
  import opened BaseTab

  // ---------------------------------------------------------------------
  // Database names: `re.match(r'^[a-zA-Z_][a-zA-Z0-9_]*$', name)` and at
  // most 63 characters
  // ---------------------------------------------------------------------

  predicate IsNameStart(c: char) {
    'a' <= c <= 'z' || 'A' <= c <= 'Z' || c == '_'
  }

  predicate IsNameChar(c: char) {
    IsNameStart(c) || '0' <= c <= '9'
  }

  /** End of the run of name characters that starts at `i`: how far
      `[a-zA-Z0-9_]*` reaches. */
  function NameRunEnd(s: string, i: nat): (e: nat)
    requires i <= |s|
    ensures i <= e <= |s|
    ensures forall k | i <= k < e :: IsNameChar(s[k])
    ensures e < |s| ==> !IsNameChar(s[e])
    decreases |s| - i
  {
    if i < |s| && IsNameChar(s[i]) then NameRunEnd(s, i + 1) else i
  }

  /** The pattern matches from the start; `$` matches at the very end and
      also just before a newline that ends the text. */
  predicate PatternMatches(s: string) {
    |s| > 0 && IsNameStart(s[0]) &&
    var e := NameRunEnd(s, 1);
    e == |s| || (e == |s| - 1 && s[e] == '\n')
  }

  /** `_is_valid_database_name`. */
  predicate IsValidDatabaseName(name: string) {
    PatternMatches(name) && |name| <= 63
  }

  /** The rule the pattern stands for: a PostgreSQL identifier of at most
      63 characters that starts with a letter or underscore. */
  predicate IdentifierRule(s: string) {
    0 < |s| <= 63 && IsNameStart(s[0]) && forall k | 1 <= k < |s| :: IsNameChar(s[k])
  }

  /** The regular expression accepts exactly the identifiers, and those
      identifiers followed by one newline (63 characters in all at most). */
  lemma ValidNameRule(name: string)
    ensures IsValidDatabaseName(name) <==>
      IdentifierRule(name) ||
      (|name| <= 63 && |name| >= 2 && name[|name| - 1] == '\n' && IdentifierRule(name[..|name| - 1]))
  {
    if |name| > 0 {
      var e := NameRunEnd(name, 1);
      if IdentifierRule(name) {
        assert e == |name|;
      }
      if |name| >= 2 && name[|name| - 1] == '\n' && IdentifierRule(name[..|name| - 1]) {
        var p := name[..|name| - 1];
        assert forall k | 1 <= k < |p| :: p[k] == name[k];
        assert e == |name| - 1;
      }
      if e == |name| - 1 && name[e] == '\n' && |name| <= 63 && IsNameStart(name[0]) {
        assert |name| >= 2;
        assert forall k | 1 <= k < |name| - 1 :: name[..|name| - 1][k] == name[k];
      }
    }
  }

  /** The tab validates the stripped text, which never ends in a newline:
      there the check is exactly the identifier rule. */
  lemma StrippedNameRule(text: string)
    ensures IsValidDatabaseName(Strip(text)) <==> IdentifierRule(Strip(text))
  {
    var s := Strip(text);
    ValidNameRule(s);
    var a, b := StripSlice(text);
    if s != [] {
      assert IsSpace('\n');
      assert s[|s| - 1] != '\n';
    }
  }

  // ---------------------------------------------------------------------
  // The table of databases
  // ---------------------------------------------------------------------

  /** One pair of `get_databases_with_comments`. */
  datatype DatabaseEntry = DatabaseEntry(name: string, comment: Option<string>)

  /** One table row: the name cell may be missing, and the comment cell
      holds text. */
  datatype Row = Row(name: Option<string>, comment: string)

  /** `comment if comment else "(No comment)"`. */
  function CommentText(comment: Option<string>): (t: string)
    ensures t != []
    ensures comment.Some? && comment.value != [] ==> t == comment.value
  {
    if comment.Some? && comment.value != [] then comment.value else "(No comment)"
  }

  function RowOf(e: DatabaseEntry): Row {
    Row(Some(e.name), CommentText(e.comment))
  }

  /** The rows `refresh_databases` inserts, one per entry in order. */
  function Rows(dbs: seq<DatabaseEntry>): (rows: seq<Row>)
    ensures |rows| == |dbs|
    ensures forall k | 0 <= k < |dbs| :: rows[k] == RowOf(dbs[k])
  {
    if dbs == [] then [] else Rows(dbs[..|dbs| - 1]) + [RowOf(dbs[|dbs| - 1])]
  }

  /** The names `refresh_databases` emits. */
  function Names(dbs: seq<DatabaseEntry>): (names: seq<string>)
    ensures |names| == |dbs|
    ensures forall k | 0 <= k < |dbs| :: names[k] == dbs[k].name
  {
    if dbs == [] then [] else Names(dbs[..|dbs| - 1]) + [dbs[|dbs| - 1].name]
  }

  /** The loop of `refresh_databases` that fills one table row per
      database and collects the names it emits. */
  method FillRows(dbs: seq<DatabaseEntry>) returns (filled: seq<Row>, names: seq<string>)
    ensures filled == Rows(dbs) && names == Names(dbs)
  {
    filled, names := [], [];
    var i := 0;
    while i < |dbs|
      invariant 0 <= i <= |dbs| && |filled| == i && |names| == i
      invariant forall k | 0 <= k < i :: filled[k] == RowOf(dbs[k])
      invariant forall k | 0 <= k < i :: names[k] == dbs[k].name
    {
      filled := filled + [RowOf(dbs[i])];
      names := names + [dbs[i].name];
      i := i + 1;
    }
    assert filled == Rows(dbs);
    assert names == Names(dbs);
  }

  /** The names of the rows that have a name cell, in row order. */
  function PresentNames(rows: seq<Row>): (names: seq<string>)
    ensures |names| <= |rows|
    ensures forall k | 0 <= k < |rows| && rows[k].name.Some? :: rows[k].name.value in names
    ensures forall n | n in names :: exists k | 0 <= k < |rows| :: rows[k].name == Some(n)
  {
    if rows == [] then []
    else
      var init := PresentNames(rows[..|rows| - 1]);
      assert forall k | 0 <= k < |rows| - 1 :: rows[..|rows| - 1][k] == rows[k];
      match rows[|rows| - 1].name {
        case None => init
        case Some(n) => init + [n]
      }
  }

  /** A freshly filled table gives back, through `get_database_names`,
      exactly the names the refresh emitted. */
  lemma {:induction false} PresentNamesOfRows(dbs: seq<DatabaseEntry>)
    ensures PresentNames(Rows(dbs)) == Names(dbs)
  {
    if dbs != [] {
      var init := dbs[..|dbs| - 1];
      PresentNamesOfRows(init);
      assert Rows(dbs)[..|dbs| - 1] == Rows(init);
    }
  }

  // ---------------------------------------------------------------------
  // Selection, creation and deletion
  // ---------------------------------------------------------------------

  /** `connection_params.get('database') == db_name`. */
  predicate ConnectedTo(m: DbManager, db: string) {
    "database" in m.connectionParams && m.connectionParams["database"] == db
  }

  /** A database the tab lets the user delete. */
  predicate Deletable(m: DbManager, db: string) {
    !m.isSystemDatabase(db) && !ConnectedTo(m, db)
  }

  /** The delete button and status text after a selection change; a status
      of `None` leaves the label as it was. */
  datatype SelectionView = SelectionView(deleteEnabled: bool, status: Option<string>)

  /** `on_database_selection_changed` for the row `row` (-1: none). */
  function SelectionChanged(rows: seq<Row>, row: int, m: DbManager): (v: SelectionView)
    requires -1 <= row < |rows|
    ensures v.deleteEnabled ==> row != -1
    ensures row == -1 ==> v.status == Some("No database selected")
    ensures row != -1 && rows[row].name.None? ==> v.deleteEnabled && v.status.None?
    ensures row != -1 && rows[row].name.Some? ==>
      var db := rows[row].name.value;
      (v.deleteEnabled <==> Deletable(m, db)) &&
      v.status.Some? && StartsWith(v.status.value, "Selected: " + db)
  {
    if row == -1 then SelectionView(false, Some("No database selected"))
    else match rows[row].name {
      case None => SelectionView(true, None)
      case Some(db) =>
        var selected := "Selected: " + db;
        assert StartsWith(selected + " (System database - cannot delete)", selected);
        assert StartsWith(selected + " (Currently connected - cannot delete)", selected);
        if m.isSystemDatabase(db) then
          SelectionView(false, Some(selected + " (System database - cannot delete)"))
        else if ConnectedTo(m, db) then
          SelectionView(false, Some(selected + " (Currently connected - cannot delete)"))
        else SelectionView(true, Some(selected))
    }
  }

  /** Why the tab refuses an action, in the order it checks. */
  datatype Refusal =
    | NotConnected | NoTemplate | EmptyName | InvalidName | AlreadyExists | NoPrivilege
    | NoSelection | NoNameCell | SystemDatabase | ConnectedDatabase

  /** What the tab asks the manager to do. */
  datatype Request =
    | CreateFromTemplate(template: string, name: string, comment: string)
    | DeleteDatabase(name: string, forceDropConnections: bool)

  datatype Outcome = Refused(reason: Refusal) | Cancelled | Dispatched(request: Request)

  /** `create_database` with the template box text and the two line edits. */
  function CreateDecision(m: DbManager, template: string, nameText: string, commentText: string): (r: Outcome)
    ensures r.Refused? && r.reason == NotConnected <==> !CheckConnection(m)
    ensures r.Refused? && r.reason == NoTemplate <==> CheckConnection(m) && template == ""
    ensures r.Refused? && r.reason == EmptyName <==>
      CheckConnection(m) && template != "" && !HasNonSpace(nameText)
    ensures r.Refused? && r.reason == InvalidName <==>
      CheckConnection(m) && template != "" && HasNonSpace(nameText) && !IdentifierRule(Strip(nameText))
    ensures r.Refused? && r.reason == AlreadyExists <==>
      CheckConnection(m) && template != "" && IdentifierRule(Strip(nameText)) && m.databaseExists(Strip(nameText))
    ensures r.Refused? && r.reason == NoPrivilege <==>
      CheckConnection(m) && template != "" && IdentifierRule(Strip(nameText)) &&
      !m.databaseExists(Strip(nameText)) && !(m.privileges.canCreateDb || m.privileges.isSuperuser)
    ensures r.Refused? ==> r.reason in {NotConnected, NoTemplate, EmptyName, InvalidName, AlreadyExists, NoPrivilege}
    ensures r.Dispatched? ==>
      r.request == CreateFromTemplate(template, Strip(nameText), Strip(commentText)) &&
      IdentifierRule(r.request.name) && !m.databaseExists(r.request.name) &&
      (m.privileges.canCreateDb || m.privileges.isSuperuser)
    ensures r.Dispatched? <==>
      CheckConnection(m) && template != "" && IdentifierRule(Strip(nameText)) &&
      !m.databaseExists(Strip(nameText)) && (m.privileges.canCreateDb || m.privileges.isSuperuser)
    ensures !r.Cancelled?
  {
    var name := Strip(nameText);
    StrippedNameRule(nameText);
    NonEmptyFieldStripped(nameText);
    if !CheckConnection(m) then Refused(NotConnected)
    else if !ValidateSelection(template) then Refused(NoTemplate)
    else if !ValidateNonEmptyField(name) then Refused(EmptyName)
    else if !IsValidDatabaseName(name) then Refused(InvalidName)
    else if m.databaseExists(name) then Refused(AlreadyExists)
    else if !CheckUserPrivileges(m.privileges, "can_create_db") then Refused(NoPrivilege)
    else Dispatched(CreateFromTemplate(template, name, Strip(commentText)))
  }

  /** `delete_database` for the selected row; `confirmed` is whether the
      deletion dialog was accepted. */
  function DeleteDecision(m: DbManager, rows: seq<Row>, row: int, confirmed: bool): (r: Outcome)
    requires -1 <= row < |rows|
    ensures r.Refused? && r.reason == NotConnected <==> !CheckConnection(m)
    ensures r.Refused? && r.reason == NoSelection <==> CheckConnection(m) && row == -1
    ensures r.Refused? && r.reason == NoNameCell <==>
      CheckConnection(m) && row != -1 && rows[row].name.None?
    ensures r.Refused? && r.reason == SystemDatabase <==>
      CheckConnection(m) && row != -1 && rows[row].name.Some? && m.isSystemDatabase(rows[row].name.value)
    ensures r.Refused? && r.reason == ConnectedDatabase <==>
      CheckConnection(m) && row != -1 && rows[row].name.Some? && !m.isSystemDatabase(rows[row].name.value) &&
      ConnectedTo(m, rows[row].name.value)
    ensures r.Refused? ==> r.reason in {NotConnected, NoSelection, NoNameCell, SystemDatabase, ConnectedDatabase}
    ensures !r.Refused? ==> CheckConnection(m) && row != -1 && rows[row].name.Some? && Deletable(m, rows[row].name.value)
    ensures !r.Refused? ==> (r.Dispatched? <==> confirmed)
    ensures r.Dispatched? ==> r.request == DeleteDatabase(rows[row].name.value, true)
  {
    if !CheckConnection(m) then Refused(NotConnected)
    else if row == -1 then Refused(NoSelection)
    else match rows[row].name {
      case None => Refused(NoNameCell)
      case Some(db) =>
        if m.isSystemDatabase(db) then Refused(SystemDatabase)
        else if ConnectedTo(m, db) then Refused(ConnectedDatabase)
        else if confirmed then Dispatched(DeleteDatabase(db, true))
        else Cancelled
    }
  }

  /** The delete button tells the truth about deletion: for a selected row
      with a name, it is enabled exactly when `delete_database` would go
      on to the dialog. Only a row without a name cell enables the button
      and is then refused. */
  lemma ButtonAgreesWithDelete(m: DbManager, rows: seq<Row>, row: int, confirmed: bool)
    requires CheckConnection(m) && -1 <= row < |rows|
    ensures row == -1 || rows[row].name.Some? ==>
      (SelectionChanged(rows, row, m).deleteEnabled <==> !DeleteDecision(m, rows, row, confirmed).Refused?)
    ensures SelectionChanged(rows, row, m).deleteEnabled && DeleteDecision(m, rows, row, confirmed).Refused? ==>
      DeleteDecision(m, rows, row, confirmed).reason == NoNameCell
  {
  }

  // ---------------------------------------------------------------------
  // Reacting to the manager's `operation_finished`
  // ---------------------------------------------------------------------

  datatype Reaction = Reaction(acted: bool, clearForm: bool, refresh: bool)

  /** `on_operation_finished`: the tab reacts to messages that mention a
      database or a template; a success refreshes the table, and a
      creation also clears the form. */
  function OperationFinished(success: bool, message: string): (r: Reaction)
    ensures r.acted <==> Contains(Lower(message), "database") || Contains(Lower(message), "template")
    ensures r.refresh <==> r.acted && success
    ensures r.clearForm <==> r.refresh && Contains(Lower(message), "created successfully")
  {
    var l := Lower(message);
    var acted := Contains(l, "database") || Contains(l, "template");
    Reaction(acted, acted && success && Contains(l, "created successfully"), acted && success)
  }

  /** The reaction ignores letter case. */
  lemma OperationFinishedIgnoresCase(success: bool, message: string)
    ensures OperationFinished(success, Lower(message)) == OperationFinished(success, message)
  {
    LowerIdempotent(message);
  }

  // ---------------------------------------------------------------------
  // The tab's state
  // ---------------------------------------------------------------------

  /** The deletion dialog: its delete button is enabled only while the
      typed text is the database name. */
  class DeletionDialog {
    const databaseName: string
    var typed: string
    var deleteEnabled: bool

    ghost predicate Valid()
      reads this
    {
      deleteEnabled <==> typed == databaseName
    }

    constructor(databaseName: string)
      requires databaseName != ""
      ensures this.databaseName == databaseName && typed == "" && !deleteEnabled
      ensures Valid()
    {
      this.databaseName := databaseName;
      typed := "";
      deleteEnabled := false;
    }

    /** `check_name_match`, run on every edit of the name field. */
    method CheckNameMatch(text: string)
      modifies this
      ensures typed == text && (deleteEnabled <==> text == databaseName)
      ensures Valid()
    {
      typed := text;
      deleteEnabled := text == databaseName;
    }
  }

  class DatabasesTab {
    var rows: seq<Row>
    var currentRow: int
    var deleteEnabled: bool
    var status: string
    var templateText: string
    var newDbName: string
    var dbComment: string

    ghost predicate Valid()
      reads this
    {
      -1 <= currentRow < |rows| && (deleteEnabled ==> currentRow != -1)
    }

    constructor()
      ensures Valid() && rows == [] && currentRow == -1 && !deleteEnabled
      ensures templateText == "" && newDbName == "" && dbComment == ""
    {
      rows := [];
      currentRow := -1;
      deleteEnabled := false;
      status := "";
      templateText := "";
      newDbName := "";
      dbComment := "";
    }

    /** `on_database_selection_changed` for the selection `row`. */
    method OnDatabaseSelectionChanged(m: DbManager, row: int)
      requires Valid() && -1 <= row < |rows|
      modifies this
      ensures Valid() && currentRow == row && rows == old(rows)
      ensures deleteEnabled == SelectionChanged(rows, row, m).deleteEnabled
      ensures status == (match SelectionChanged(rows, row, m).status
                         case Some(t) => t
                         case None => old(status))
      ensures templateText == old(templateText) && newDbName == old(newDbName) && dbComment == old(dbComment)
    {
      currentRow := row;
      var v := SelectionChanged(rows, row, m);
      deleteEnabled := v.deleteEnabled;
      if v.status.Some? {
        status := v.status.value;
      }
    }

    /** `refresh_databases`: `listing` is what `get_databases_with_comments`
        returned, `None` when it raised. Clearing the table drops the
        selection, which disables the delete button. */
    method RefreshDatabases(m: DbManager, listing: Option<seq<DatabaseEntry>>) returns (emitted: Option<seq<string>>)
      requires Valid()
      modifies this
      ensures Valid()
      ensures emitted.Some? <==> CheckConnection(m) && listing.Some?
      ensures emitted.Some? ==>
        emitted.value == Names(listing.value) && rows == Rows(listing.value) &&
        currentRow == -1 && !deleteEnabled
      ensures emitted.None? ==> rows == old(rows) && currentRow == old(currentRow) && deleteEnabled == old(deleteEnabled)
      ensures templateText == old(templateText) && newDbName == old(newDbName) && dbComment == old(dbComment)
    {
      if !CheckConnection(m) || listing.None? {
        return None;
      }
      var filled, names := FillRows(listing.value);
      rows := filled;
      currentRow := -1;
      deleteEnabled := false;
      emitted := Some(names);
    }

    /** `refresh_templates`. */
    method RefreshTemplates(templates: seq<string>)
      modifies this
      ensures templateText == RestoredSelection(old(templateText), templates)
      ensures rows == old(rows) && currentRow == old(currentRow) && deleteEnabled == old(deleteEnabled)
      ensures status == old(status) && newDbName == old(newDbName) && dbComment == old(dbComment)
    {
      templateText := RestoredSelection(templateText, templates);
    }

    /** `get_database_names`. */
    method GetDatabaseNames() returns (names: seq<string>)
      ensures names == PresentNames(rows)
    {
      names := [];
      var i := 0;
      while i < |rows|
        invariant 0 <= i <= |rows|
        invariant names == PresentNames(rows[..i])
      {
        assert rows[..i + 1][..i] == rows[..i];
        if rows[i].name.Some? {
          names := names + [rows[i].name.value];
        }
        i := i + 1;
      }
      assert rows[..i] == rows;
    }

    /** `create_database`. */
    method CreateDatabase(m: DbManager) returns (r: Outcome)
      ensures r == CreateDecision(m, templateText, newDbName, dbComment)
    {
      r := CreateDecision(m, templateText, newDbName, dbComment);
    }

    /** `delete_database`, with the answer given to the dialog. */
    method DeleteSelected(m: DbManager, confirmed: bool) returns (r: Outcome)
      requires Valid()
      ensures r == DeleteDecision(m, rows, currentRow, confirmed)
    {
      r := DeleteDecision(m, rows, currentRow, confirmed);
    }

    /** `on_operation_finished`; `refresh` says whether the tab goes on to
        `refresh_databases`. */
    method OnOperationFinished(success: bool, message: string) returns (refresh: bool)
      modifies this
      ensures refresh == OperationFinished(success, message).refresh
      ensures OperationFinished(success, message).clearForm ==> newDbName == "" && dbComment == ""
      ensures !OperationFinished(success, message).clearForm ==> newDbName == old(newDbName) && dbComment == old(dbComment)
      ensures rows == old(rows) && currentRow == old(currentRow) && deleteEnabled == old(deleteEnabled)
      ensures status == old(status) && templateText == old(templateText)
    {
      var reaction := OperationFinished(success, message);
      if reaction.clearForm {
        newDbName := "";
        dbComment := "";
      }
      refresh := reaction.refresh;
    }
  }
}
