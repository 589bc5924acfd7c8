/**
 * The QGIS Projects tab (`tabs/qgis_projects_tab.py`): find the projects
 * stored in a database, and ask the manager to repoint a project's layers
 * at new connection parameters. A project is shown, and chosen, by the
 * label `schema.table - name`.
 */
module QgisProjects {
  import opened Text
  import opened BaseTab

  // ---------------------------------------------------------------------
  // Project labels
  // ---------------------------------------------------------------------

  /** One project the manager found: `p['schema']`, `p['table']`, `p['name']`. */
  datatype ProjectRecord = ProjectRecord(schema: string, table: string, name: string)

  const LabelSeparator := " - "

  /** `f"{schema}.{table} - {name}"`. */
  function ProjectLabel(p: ProjectRecord): string {
    p.schema + "." + p.table + LabelSeparator + p.name
  }

  /** The labels `search_qgis_projects` puts in the project box. */
  function ProjectLabels(projects: seq<ProjectRecord>): (labels: seq<string>)
    ensures |labels| == |projects|
    ensures forall k | 0 <= k < |projects| :: labels[k] == ProjectLabel(projects[k])
  {
    seq(|projects|, k requires 0 <= k < |projects| => ProjectLabel(projects[k]))
  }

  /** `split(" - ", 1)` and then `split(".", 1)`, each unpacked into two
      names; `None` where the unpacking raises `ValueError`. */
  function ParseLabel(shown: string): (r: Option<ProjectRecord>)
    ensures r.None? <==>
      !Contains(shown, LabelSeparator) || !Contains(SplitOnce(shown, LabelSeparator).value.0, ".")
    ensures r.Some? ==> shown == r.value.schema + "." + r.value.table + LabelSeparator + r.value.name
    ensures r.Some? ==> '.' !in r.value.schema
  {
    match SplitOnce(shown, LabelSeparator) {
      case None => None
      case Some((schemaTable, name)) =>
        match SplitOnce(schemaTable, ".") {
          case None => None
          case Some((schema, table)) =>
            assert '.' !in schema by {
              forall i | 0 <= i < |schema| ensures schema[i] != '.' {
                assert schema[i..i + 1] == [schema[i]];
                assert !OccursAt(schema, ".", i);
              }
            }
            Some(ProjectRecord(schema, table, name))
        }
    }
  }

  /** A project whose label reads back as itself: no dot in the schema, no
      separator inside either name, and a table name that does not end in
      `" -"` (which would join the separator into an earlier one). */
  predicate Labelable(p: ProjectRecord) {
    '.' !in p.schema && !Contains(p.schema, LabelSeparator) && !Contains(p.table, LabelSeparator) &&
    !EndsWith(p.table, " -")
  }

  /** The first `" - "` of a label is the one after the table. */
  lemma NoEarlySeparator(p: ProjectRecord)
    requires Labelable(p)
    ensures forall k | 0 <= k < |p.schema| + 1 + |p.table| :: !OccursAt(ProjectLabel(p), LabelSeparator, k)
  {
    var n := |p.schema|;
    var a := |p.schema| + 1 + |p.table|;
    forall k | 0 <= k < a ensures !OccursAt(ProjectLabel(p), LabelSeparator, k) {
      if k + 3 <= n {
        NoSeparatorInSchema(p, k);
      } else if k <= n {
        NoSeparatorOverDot(p, k);
      } else if k + 3 <= a {
        NoSeparatorInTable(p, k);
      } else {
        NoSeparatorAtTableEnd(p, k);
      }
    }
  }

  lemma NoSeparatorInSchema(p: ProjectRecord, k: nat)
    requires Labelable(p) && k + 3 <= |p.schema|
    ensures !OccursAt(ProjectLabel(p), LabelSeparator, k)
  {
    assert ProjectLabel(p)[k..k + 3] == p.schema[k..k + 3];
    assert !OccursAt(p.schema, LabelSeparator, k);
  }

  lemma NoSeparatorOverDot(p: ProjectRecord, k: nat)
    requires |p.schema| < k + 3 && k <= |p.schema|
    ensures !OccursAt(ProjectLabel(p), LabelSeparator, k)
  {
    var n := |p.schema|;
    assert ProjectLabel(p)[n] == '.';
    OccursIndex(ProjectLabel(p), LabelSeparator, k, n - k);
  }

  lemma NoSeparatorInTable(p: ProjectRecord, k: nat)
    requires Labelable(p) && |p.schema| < k && k + 3 <= |p.schema| + 1 + |p.table|
    ensures !OccursAt(ProjectLabel(p), LabelSeparator, k)
  {
    var n := |p.schema|;
    assert ProjectLabel(p)[k..k + 3] == p.table[k - n - 1..k - n + 2];
    assert !OccursAt(p.table, LabelSeparator, k - n - 1);
  }

  /** The last one or two characters of the table followed by the
      separator's blank: a table name not ending in `" -"` starts no
      separator there. */
  lemma NoSeparatorAtTableEnd(p: ProjectRecord, k: nat)
    requires Labelable(p) && |p.schema| < k < |p.schema| + 1 + |p.table| < k + 3
    ensures !OccursAt(ProjectLabel(p), LabelSeparator, k)
  {
    var s := ProjectLabel(p);
    var a := |p.schema| + 1 + |p.table|;
    assert s[a] == ' ';
    if k == a - 1 {
      OccursIndex(s, LabelSeparator, k, 1);
    } else {
      assert s[k..k + 2] == p.table[|p.table| - 2..];
      OccursIndex(s, LabelSeparator, k, 0);
      OccursIndex(s, LabelSeparator, k, 1);
      assert p.table[|p.table| - 2..] != " -";
    }
  }

  /** Parsing a label gives back the project it was made from. */
  lemma LabelRoundTrip(p: ProjectRecord)
    requires Labelable(p)
    ensures ParseLabel(ProjectLabel(p)) == Some(p)
  {
    var schemaTable := p.schema + "." + p.table;
    NoEarlySeparator(p);
    SplitOnceAt(ProjectLabel(p), schemaTable, LabelSeparator, p.name);
    forall i | 0 <= i < |p.schema| ensures !OccursAt(schemaTable, ".", i) {
      OccursIndex(schemaTable, ".", i, 0);
      assert schemaTable[i] == p.schema[i];
    }
    SplitOnceAt(schemaTable, p.schema, ".", p.table);
  }

  /** A table name ending in `" -"` is read back wrongly: the project of
      table `t -` named `n` is taken for the project of table `t` named
      `- n`. */
  lemma LabelAmbiguity()
    ensures ParseLabel(ProjectLabel(ProjectRecord("s", "t -", "n"))) == Some(ProjectRecord("s", "t", "- n"))
  {
    assert ProjectLabel(ProjectRecord("s", "t -", "n")) == "s.t" + LabelSeparator + "- n";
    AmbiguousLabelSplits();
    AmbiguousHeadSplits();
  }

  /** `"s.t - - n".split(" - ", 1)` cuts after `s.t`. */
  lemma AmbiguousLabelSplits()
    ensures SplitOnce("s.t" + LabelSeparator + "- n", LabelSeparator) == Some(("s.t", "- n"))
  {
    var s := "s.t" + LabelSeparator + "- n";
    OccursIndex(s, LabelSeparator, 0, 0);
    OccursIndex(s, LabelSeparator, 1, 0);
    OccursIndex(s, LabelSeparator, 2, 0);
    SplitOnceAt(s, "s.t", LabelSeparator, "- n");
  }

  /** `"s.t".split(".", 1)` gives `s` and `t`. */
  lemma AmbiguousHeadSplits()
    ensures SplitOnce("s.t", ".") == Some(("s", "t"))
  {
    OccursIndex("s.t", ".", 0, 0);
    SplitOnceAt("s.t", "s", ".", "t");
  }

  // ---------------------------------------------------------------------
  // New connection parameters
  // ---------------------------------------------------------------------

  const DefaultPort := 5432

  /** The six parameter fields of the form; the port comes from a spin box
      limited to 1..65535. */
  datatype ParameterFields = ParameterFields(
    dbname: string, host: string, user: string, port: nat, password: string, schema: string)

  /** The keys of `new_params`. */
  datatype ParamKey = DbName | Host | User | Port | Password | Schema

  /** The dictionary key each one stands for. */
  function KeyName(k: ParamKey): string {
    match k
    case DbName => "dbname"
    case Host => "host"
    case User => "user"
    case Port => "port"
    case Password => "password"
    case Schema => "schema"
  }

  /** The text of the field behind each key (the port has none). */
  function FieldText(f: ParameterFields, k: ParamKey): string {
    match k
    case DbName => f.dbname
    case Host => f.host
    case User => f.user
    case Port => ""
    case Password => f.password
    case Schema => f.schema
  }

  /** What the form would send under each key, or `""` for nothing: the
      stripped text fields, and the port's decimal text unless it is 5432. */
  datatype Entries = Entries(dbname: string, host: string, user: string, port: string, password: string, schema: string)

  function FormEntries(f: ParameterFields): Entries {
    Entries(Strip(f.dbname), Strip(f.host), Strip(f.user),
            if f.port != DefaultPort then NatToDecimal(f.port) else "",
            Strip(f.password), Strip(f.schema))
  }

  function Entry(e: Entries, k: ParamKey): string {
    match k
    case DbName => e.dbname
    case Host => e.host
    case User => e.user
    case Port => e.port
    case Password => e.password
    case Schema => e.schema
  }

  /** One `if value: new_params[key] = value` step. */
  function PutNonEmpty(params: map<ParamKey, string>, key: ParamKey, value: string): map<ParamKey, string> {
    if value != [] then params[key := value] else params
  }

  /** The dictionary built key by key, in the order of the source. */
  function ParametersFrom(e: Entries): map<ParamKey, string> {
    var p1 := PutNonEmpty(map[], DbName, e.dbname);
    var p2 := PutNonEmpty(p1, Host, e.host);
    var p3 := PutNonEmpty(p2, User, e.user);
    var p4 := PutNonEmpty(p3, Port, e.port);
    var p5 := PutNonEmpty(p4, Password, e.password);
    PutNonEmpty(p5, Schema, e.schema)
  }

  /** `_collect_new_parameters` on the form's fields. */
  function CollectedParameters(f: ParameterFields): map<ParamKey, string> {
    ParametersFrom(FormEntries(f))
  }

  /** Building key by key keeps exactly the non-empty entries. */
  lemma ParametersFromSpec(e: Entries)
    ensures forall k :: k in ParametersFrom(e) <==> Entry(e, k) != []
    ensures forall k | k in ParametersFrom(e) :: ParametersFrom(e)[k] == Entry(e, k)
  {
    forall k ensures (k in ParametersFrom(e) <==> Entry(e, k) != []) &&
                     (k in ParametersFrom(e) ==> ParametersFrom(e)[k] == Entry(e, k)) {
      ParametersFromAt(e, k);
    }
  }

  /** One key of the dictionary: it is present exactly when its entry is
      non-empty, and then it holds that entry. */
  lemma ParametersFromAt(e: Entries, k: ParamKey)
    ensures k in ParametersFrom(e) <==> Entry(e, k) != []
    ensures k in ParametersFrom(e) ==> ParametersFrom(e)[k] == Entry(e, k)
  {
    var p1 := PutNonEmpty(map[], DbName, e.dbname);
    var p2 := PutNonEmpty(p1, Host, e.host);
    var p3 := PutNonEmpty(p2, User, e.user);
    var p4 := PutNonEmpty(p3, Port, e.port);
    var p5 := PutNonEmpty(p4, Password, e.password);
    PutNonEmptyAt(map[], DbName, e.dbname, k);
    PutNonEmptyAt(p1, Host, e.host, k);
    PutNonEmptyAt(p2, User, e.user, k);
    PutNonEmptyAt(p3, Port, e.port, k);
    PutNonEmptyAt(p4, Password, e.password, k);
    PutNonEmptyAt(p5, Schema, e.schema, k);
  }

  /** What one `if value: new_params[key] = value` step does to key `k`. */
  lemma PutNonEmptyAt(params: map<ParamKey, string>, key: ParamKey, value: string, k: ParamKey)
    ensures k in PutNonEmpty(params, key, value) <==> (k == key && value != []) || k in params
    ensures k in PutNonEmpty(params, key, value) ==>
      PutNonEmpty(params, key, value)[k] == if k == key && value != [] then value else params[k]
  {
  }

  /** A text field is sent exactly when it is not blank, stripped; the
      port exactly when it is not 5432. */
  lemma CollectedSpec(f: ParameterFields, k: ParamKey)
    ensures k != Port ==>
      (k in CollectedParameters(f) <==> Strip(FieldText(f, k)) != []) &&
      (k in CollectedParameters(f) ==> CollectedParameters(f)[k] == Strip(FieldText(f, k)))
    ensures k == Port ==>
      (k in CollectedParameters(f) <==> f.port != DefaultPort) &&
      (k in CollectedParameters(f) ==> CollectedParameters(f)[k] == NatToDecimal(f.port))
  {
    ParametersFromSpec(FormEntries(f));
  }

  /** The port is sent as the text of its number, and only when it is not
      the default. */
  lemma PortParameter(f: ParameterFields)
    ensures Port in CollectedParameters(f) <==> f.port != DefaultPort
    ensures Port in CollectedParameters(f) ==>
      var t := CollectedParameters(f)[Port];
      (forall i | 0 <= i < |t| :: IsDigit(t[i])) && DecimalValue(t) == f.port
  {
    CollectedSpec(f, Port);
    DecimalRoundTrip(f.port);
  }

  /** Every text value sent is non-empty and already stripped. */
  lemma TextParameter(f: ParameterFields, k: ParamKey)
    requires k != Port
    ensures k in CollectedParameters(f) ==> Strip(CollectedParameters(f)[k]) == CollectedParameters(f)[k] != []
  {
    CollectedSpec(f, k);
    StripIdempotent(FieldText(f, k));
  }

  /** The form as `clear_parameters` leaves it. */
  const ClearedFields := ParameterFields("", "", "", DefaultPort, "", "")

  /** A cleared form asks for nothing. */
  lemma ClearedCollectsNothing()
    ensures CollectedParameters(ClearedFields) == map[]
  {
    var f := ClearedFields;
    var e := FormEntries(f);
    assert e == Entries("", "", "", "", "", "");
    ParametersFromSpec(e);
    assert CollectedParameters(f).Keys == {};
  }

  // ---------------------------------------------------------------------
  // Fixing a project
  // ---------------------------------------------------------------------

  datatype Refusal = NotConnected | NoDatabase | NoProject | BadProjectLabel | NoParameters

  /** `fix_qgis_project_layers(db, schema, table, name, params, backup)`. */
  datatype Request = FixProjectLayers(
    database: string, schema: string, table: string, projectName: string,
    params: map<ParamKey, string>, createBackup: bool)

  datatype Outcome = Refused(reason: Refusal) | Dispatched(request: Request)

  /** `fix_qgis_project`: the guards in order, then the call. */
  function FixDecision(m: DbManager, database: string, shown: string, f: ParameterFields, backup: bool): (r: Outcome)
    ensures r == Refused(NotConnected) <==> !CheckConnection(m)
    ensures r == Refused(NoDatabase) <==> CheckConnection(m) && database == ""
    ensures r == Refused(NoProject) <==> CheckConnection(m) && database != "" && shown == ""
    ensures r == Refused(BadProjectLabel) <==>
      CheckConnection(m) && database != "" && shown != "" && ParseLabel(shown).None?
    ensures r == Refused(NoParameters) <==>
      CheckConnection(m) && database != "" && shown != "" && ParseLabel(shown).Some? &&
      CollectedParameters(f) == map[]
    ensures r.Dispatched? ==>
      var p := ParseLabel(shown).value;
      r.request == FixProjectLayers(database, p.schema, p.table, p.name, CollectedParameters(f), backup) &&
      r.request.params != map[]
  {
    if !CheckConnection(m) then Refused(NotConnected)
    else if !ValidateSelection(database) then Refused(NoDatabase)
    else if !ValidateSelection(shown) then Refused(NoProject)
    else match ParseLabel(shown) {
      case None => Refused(BadProjectLabel)
      case Some(p) =>
        var params := CollectedParameters(f);
        if params == map[] then Refused(NoParameters)
        else Dispatched(FixProjectLayers(database, p.schema, p.table, p.name, params, backup))
    }
  }

  /** Choosing a listed project fixes that project, for every project
      whose label reads back. */
  lemma FixTargetsChosenProject(m: DbManager, database: string, projects: seq<ProjectRecord>, k: nat,
                                f: ParameterFields, backup: bool)
    requires k < |projects| && Labelable(projects[k])
    requires CheckConnection(m) && database != "" && CollectedParameters(f) != map[]
    ensures var p := projects[k];
      FixDecision(m, database, ProjectLabels(projects)[k], f, backup) ==
      Dispatched(FixProjectLayers(database, p.schema, p.table, p.name, CollectedParameters(f), backup))
  {
    LabelRoundTrip(projects[k]);
  }

  /** `on_operation_finished` reacts, case-sensitively, to four keywords. */
  predicate ProjectsKeyword(message: string) {
    Contains(message, "project") || Contains(message, "Project") ||
    Contains(message, "layers") || Contains(message, "Layers")
  }

  /** Unlike the other tabs, the keyword test here is case-sensitive: an
      all-capitals message is ignored. */
  lemma KeywordCaseSensitive()
    ensures !ProjectsKeyword("PROJECT") && ProjectsKeyword("Project")
  {
    assert OccursAt("Project", "Project", 0);
    var s := "PROJECT";
    forall k | 0 <= k <= |s| ensures !OccursAt(s, "project", k) && !OccursAt(s, "Project", k) {
      OccursIndex(s, "project", k, 1);
      OccursIndex(s, "Project", k, 1);
    }
    forall k | 0 <= k <= |s| ensures !OccursAt(s, "layers", k) && !OccursAt(s, "Layers", k) {
      OccursIndex(s, "layers", k, 1);
      OccursIndex(s, "Layers", k, 1);
    }
  }

  /** What `search_qgis_projects` got from `find_qgis_projects`. */
  datatype SearchResult = Found(projects: seq<ProjectRecord>) | SearchRaised

  // ---------------------------------------------------------------------
  // The tab's state
  // ---------------------------------------------------------------------

  class QgisProjectsTab {
    var databases: seq<string>
    var databaseText: string
    var projectItems: seq<string>
    var projectText: string
    var newDbname: string
    var newHost: string
    var newUser: string
    var newPort: int
    var newPassword: string
    var newSchema: string
    var createBackup: bool

    /** The spin box keeps the port in range, and the project box shows one
        of its items or nothing. */
    ghost predicate Valid()
      reads this
    {
      1 <= newPort <= 65535 && (projectText == "" || projectText in projectItems)
    }

    constructor()
      ensures Valid() && newPort == DefaultPort && createBackup
      ensures databases == [] && databaseText == "" && projectItems == [] && projectText == ""
      ensures newDbname == "" && newHost == "" && newUser == "" && newPassword == "" && newSchema == ""
    {
      databases := [];
      databaseText := "";
      projectItems := [];
      projectText := "";
      newDbname := "";
      newHost := "";
      newUser := "";
      newPort := DefaultPort;
      newPassword := "";
      newSchema := "";
      createBackup := true;
    }

    /** The form's fields. */
    function Fields(): ParameterFields
      requires Valid()
      reads this
    {
      ParameterFields(newDbname, newHost, newUser, newPort, newPassword, newSchema)
    }

    /** `QSpinBox.setValue` clamps to the range. */
    method SetPort(value: int)
      requires Valid()
      modifies this
      ensures Valid()
      ensures newPort == (if value < 1 then 1 else if value > 65535 then 65535 else value)
      ensures projectItems == old(projectItems) && projectText == old(projectText)
    {
      newPort := if value < 1 then 1 else if value > 65535 then 65535 else value;
    }

    /** `_collect_new_parameters`. */
    method CollectNewParameters() returns (params: map<ParamKey, string>)
      requires Valid()
      ensures params == CollectedParameters(Fields())
    {
      var e := FormEntries(Fields());
      params := PutNonEmpty(map[], DbName, e.dbname);
      params := PutNonEmpty(params, Host, e.host);
      params := PutNonEmpty(params, User, e.user);
      params := PutNonEmpty(params, Port, e.port);
      params := PutNonEmpty(params, Password, e.password);
      params := PutNonEmpty(params, Schema, e.schema);
    }

    /** `clear_parameters`. */
    method ClearParameters()
      requires Valid()
      modifies this
      ensures Valid() && Fields() == ClearedFields
      ensures databases == old(databases) && databaseText == old(databaseText)
      ensures projectItems == old(projectItems) && projectText == old(projectText)
      ensures createBackup == old(createBackup)
    {
      newDbname := "";
      newHost := "";
      newUser := "";
      newPort := DefaultPort;
      newPassword := "";
      newSchema := "";
    }

    /** `refresh_qgis_databases`: `given` is the list passed in; without
        one the tab asks the manager, and `fetched` is its answer (`None`
        when it raised). The box is refilled, so its first item is shown. */
    method RefreshQgisDatabases(m: DbManager, given: Option<seq<string>>, fetched: Option<seq<string>>)
      requires Valid()
      modifies this
      ensures Valid()
      ensures given.Some? ==> databases == given.value && databaseText == Refilled(databases)
      ensures given.None? && CheckConnection(m) && fetched.Some? ==>
        databases == fetched.value && databaseText == Refilled(databases)
      ensures given.None? && (!CheckConnection(m) || fetched.None?) ==>
        databases == old(databases) && databaseText == old(databaseText)
      ensures projectItems == old(projectItems) && projectText == old(projectText)
      ensures newPort == old(newPort)
    {
      var listed: seq<string>;
      if given.Some? {
        listed := given.value;
      } else {
        if !CheckConnection(m) || fetched.None? {
          return;
        }
        listed := fetched.value;
      }
      databases := listed;
      databaseText := Refilled(listed);
    }

    /** `search_qgis_projects`; returns what `projects_found` emits. */
    method SearchQgisProjects(m: DbManager, result: SearchResult) returns (emitted: Option<seq<ProjectRecord>>)
      requires Valid()
      modifies this
      ensures Valid()
      ensures emitted.Some? <==> CheckConnection(m) && databaseText != "" && result.Found?
      ensures emitted.Some? ==>
        emitted.value == result.projects && projectItems == ProjectLabels(result.projects) &&
        projectText == Refilled(projectItems)
      ensures emitted.None? ==> projectItems == old(projectItems) && projectText == old(projectText)
      ensures databases == old(databases) && databaseText == old(databaseText) && newPort == old(newPort)
    {
      if !CheckConnection(m) || !ValidateSelection(databaseText) || result.SearchRaised? {
        return None;
      }
      projectItems := ProjectLabels(result.projects);
      projectText := Refilled(projectItems);
      emitted := Some(result.projects);
    }

    /** `fix_qgis_project`. */
    method FixQgisProject(m: DbManager) returns (r: Outcome)
      requires Valid()
      ensures r == FixDecision(m, databaseText, projectText, Fields(), createBackup)
    {
      if !CheckConnection(m) {
        return Refused(NotConnected);
      }
      if !ValidateSelection(databaseText) {
        return Refused(NoDatabase);
      }
      if !ValidateSelection(projectText) {
        return Refused(NoProject);
      }
      var parsed := ParseLabel(projectText);
      if parsed.None? {
        return Refused(BadProjectLabel);
      }
      var params := CollectNewParameters();
      if params == map[] {
        return Refused(NoParameters);
      }
      var p := parsed.value;
      r := Dispatched(FixProjectLayers(databaseText, p.schema, p.table, p.name, params, createBackup));
    }

    /** `on_operation_finished`: a success that mentions projects or layers
        clears the form. */
    method OnOperationFinished(success: bool, message: string)
      requires Valid()
      modifies this
      ensures Valid()
      ensures success && ProjectsKeyword(message) ==> Fields() == ClearedFields
      ensures !(success && ProjectsKeyword(message)) ==> Fields() == old(Fields())
      ensures projectItems == old(projectItems) && projectText == old(projectText)
    {
      if ProjectsKeyword(message) && success {
        ClearParameters();
      }
    }
  }
}
