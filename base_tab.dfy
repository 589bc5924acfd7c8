/**
 * The guards every tab inherits from `BaseTab` (`tabs/base_tab.py`), and
 * the view the tabs have of the database manager: its connection
 * parameters and the answers of the queries they make, as uninterpreted
 * facts about the server at hand.
 */
module BaseTab {
  import opened Text

  /** The dictionary `check_user_privileges` of the manager returns. */
  datatype Privileges = Privileges(canCreateDb: bool, isSuperuser: bool)

  /** What a tab can ask the database manager. The queries stand for
      catalog lookups on the server and are left uninterpreted. */
  datatype DbManager = DbManager(
    connectionParams: map<string, string>,
    isSystemDatabase: string -> bool,
    databaseExists: string -> bool,
    privileges: Privileges)

  /** `check_connection`: the tab refuses to act until a connection has
      been tested, that is while the parameters are empty. */
  predicate CheckConnection(m: DbManager) {
    m.connectionParams != map[]
  }

  /** `check_user_privileges(required)`: only the default requirement,
      `can_create_db`, is checked; it is met by CREATEDB or superuser. */
  function CheckUserPrivileges(p: Privileges, required: string): (ok: bool)
    ensures required == "can_create_db" ==> (ok <==> p.canCreateDb || p.isSuperuser)
    ensures required != "can_create_db" ==> ok
  {
    !(required == "can_create_db" && !p.canCreateDb && !p.isSuperuser)
  }

  /** `validate_non_empty_field`: `not value.strip()` fails. */
  function ValidateNonEmptyField(value: string): (ok: bool)
    ensures ok <==> HasNonSpace(value)
  {
    StripEmpty(value);
    Strip(value) != []
  }

  /** `validate_selection`: a combo box with empty current text fails. */
  predicate ValidateSelection(currentText: string) {
    currentText != ""
  }

  /** What a `QComboBox` shows after `clear()` and `addItems(items)`: Qt
      selects index 0 when items are added to an empty box, and nothing is
      shown when there are none. */
  function Refilled(items: seq<string>): (r: string)
    ensures items != [] ==> r == items[0]
    ensures items == [] ==> r == ""
  {
    if items != [] then items[0] else ""
  }

  /** What a non-editable `QComboBox` shows after `clear()`, `addItems(items)`
      and `setCurrentText(previous)` when `previous` is still listed: the
      previous text when it survives, else what the refill selected. */
  function RestoredSelection(previous: string, items: seq<string>): (r: string)
    ensures previous in items ==> r == previous
    ensures previous !in items && items != [] ==> r == items[0]
    ensures items != [] ==> r in items
    ensures items == [] ==> r == ""
  {
    if previous in items then previous else Refilled(items)
  }

  /** `validate_selection` after a refill: when no listed item is empty it
      fails exactly when the refill left the box empty, and in any case it
      fails only when the list is empty or holds an empty item. */
  lemma SelectionAfterRefill(previous: string, items: seq<string>)
    ensures (forall k | 0 <= k < |items| :: items[k] != "") ==>
      (ValidateSelection(RestoredSelection(previous, items)) <==> items != [])
    ensures !ValidateSelection(RestoredSelection(previous, items)) ==> items == [] || "" in items
  {
  }

  /** The connection guard holds exactly when some parameter is set. */
  lemma CheckConnectionSpec(m: DbManager)
    ensures CheckConnection(m) <==> exists k :: k in m.connectionParams
  {
    if !CheckConnection(m) {
      assert m.connectionParams.Keys == {};
    } else {
      assert m.connectionParams.Keys != {};
      var k :| k in m.connectionParams.Keys;
    }
  }

  /** A field passes exactly when stripping leaves something, and the
      stripped text is what the tab then uses: it has no space at either
      end and stripping it again changes nothing. */
  lemma NonEmptyFieldStripped(value: string)
    ensures ValidateNonEmptyField(value) <==> Strip(value) != []
    ensures ValidateNonEmptyField(Strip(value)) == ValidateNonEmptyField(value)
  {
    StripEmpty(value);
    StripIdempotent(value);
    StripEmpty(Strip(value));
  }
}
