/**
 * The activity (audit) log: the label and colour shown for an event, the
 * friendly name of the subject's class, the log name and description a
 * logged model writes, the equality scopes, the CSV export, and the table
 * operations (delete one entry, delete many, clear all behind a typed
 * confirmation).
 */
module ActivityLog {
  import opened Wrappers
  import opened Text
  import opened Collections

  /**
   * One row of `activity_log`. `causerName` is the causer's name, absent
   * when there is no causer or it has no name; `createdAt` is the
   * timestamp already formatted as `Y-m-d H:i:s`.
   */
  datatype Activity = Activity(
    id: nat,
    logName: Option<string>,
    description: string,
    event: Option<string>,
    subjectType: Option<string>,
    subjectId: Option<nat>,
    causerId: Option<nat>,
    causerName: Option<string>,
    createdAt: string)

  // ---------------------------------------------------------------------
  // Event label and colour
  // ---------------------------------------------------------------------

  const KnownEvents: seq<string> :=
    ["created", "updated", "deleted", "login", "logout", "login_failed", "password_reset", "email_verified"]
  const KnownLabels: seq<string> :=
    ["Created", "Updated", "Deleted", "Login", "Logout", "Login Failed", "Password Reset", "Email Verified"]
  const KnownColors: seq<string> :=
    ["green", "blue", "red", "emerald", "orange", "red", "purple", "teal"]

  predicate IsKnown(event: Option<string>) {
    event.Some? && event.value in KnownEvents
  }

  /**
   * `event_label`: a fixed label for each of the eight known events,
   * otherwise `ucfirst` of the event, and "Unknown" for a missing event.
   */
  function EventLabel(event: Option<string>): (shown: string)
    ensures forall i :: 0 <= i < |KnownEvents| && event == Some(KnownEvents[i]) ==> shown == KnownLabels[i]
    ensures event.Some? && !IsKnown(event) ==> shown == UcFirst(event.value)
    ensures event.None? ==> shown == "Unknown"
  {
    if event == Some("created") then "Created"
    else if event == Some("updated") then "Updated"
    else if event == Some("deleted") then "Deleted"
    else if event == Some("login") then "Login"
    else if event == Some("logout") then "Logout"
    else if event == Some("login_failed") then "Login Failed"
    else if event == Some("password_reset") then "Password Reset"
    else if event == Some("email_verified") then "Email Verified"
    else UcFirst(event.GetOr("Unknown"))
  }

  /**
   * Reference reading of a snake_case name: each `_` becomes a space and
   * every word starts with a capital.
   */
  function Headline(s: string): (r: string)
    ensures |r| == |s|
  {
    HeadlineFrom(s, true)
  }

  function HeadlineFrom(s: string, wordStart: bool): (r: string)
    ensures |r| == |s|
    decreases |s|
  {
    if s == [] then []
    else if s[0] == '_' then " " + HeadlineFrom(s[1..], true)
    else [if wordStart then UpperChar(s[0]) else s[0]] + HeadlineFrom(s[1..], false)
  }

  /** Inside a word without underscores the headline changes nothing. */
  lemma {:induction false} HeadlineInsideWord(s: string)
    requires '_' !in s
    ensures HeadlineFrom(s, false) == s
    decreases |s|
  {
    if s != [] {
      assert s[0] != '_';
      assert '_' !in s[1..] by {
        forall i | 0 <= i < |s[1..]| ensures s[1..][i] != '_' {
          assert s[1..][i] == s[i + 1];
        }
      }
      HeadlineInsideWord(s[1..]);
    }
  }

  /** For a single word, `ucfirst` and the headline agree. */
  lemma UcFirstIsHeadline(s: string)
    requires '_' !in s
    ensures UcFirst(s) == Headline(s)
  {
    if s != [] {
      assert s[0] != '_';
      assert '_' !in s[1..] by {
        forall i | 0 <= i < |s[1..]| ensures s[1..][i] != '_' {
          assert s[1..][i] == s[i + 1];
        }
      }
      HeadlineInsideWord(s[1..]);
    }
  }

  lemma OneWordLabel(e: string, shown: string)
    requires '_' !in e && shown == UcFirst(e)
    ensures Headline(e) == shown
  {
    UcFirstIsHeadline(e);
  }

  lemma TwoWordLabel(a: string, b: string, shown: string)
    requires a != [] && b != [] && '_' !in a && '_' !in b
    requires shown == UcFirst(a) + " " + UcFirst(b)
    ensures Headline(a + "_" + b) == shown
  {
    HeadlineJoin(a, b, true);
    UcFirstIsHeadline(a);
    UcFirstIsHeadline(b);
  }

  lemma LoginFailedLabel()
    ensures Headline("login_failed") == "Login Failed"
  {
    TwoWordLabel("login", "failed", "Login Failed");
    assert "login" + "_" + "failed" == "login_failed";
  }

  lemma PasswordResetLabel()
    ensures Headline("password_reset") == "Password Reset"
  {
    TwoWordLabel("password", "reset", "Password Reset");
    assert "password" + "_" + "reset" == "password_reset";
  }

  lemma EmailVerifiedLabel()
    ensures Headline("email_verified") == "Email Verified"
  {
    TwoWordLabel("email", "verified", "Email Verified");
    assert "email" + "_" + "verified" == "email_verified";
  }

  /** Each fixed label is the headline of its event. */
  lemma KnownLabelsAreHeadlines()
    ensures forall i :: 0 <= i < |KnownEvents| ==> KnownLabels[i] == Headline(KnownEvents[i])
  {
    forall i | 0 <= i < |KnownEvents| ensures KnownLabels[i] == Headline(KnownEvents[i]) {
      if i == 0 {
        OneWordLabel("created", "Created");
      } else if i == 1 {
        OneWordLabel("updated", "Updated");
      } else if i == 2 {
        OneWordLabel("deleted", "Deleted");
      } else if i == 3 {
        OneWordLabel("login", "Login");
      } else if i == 4 {
        OneWordLabel("logout", "Logout");
      } else if i == 5 {
        LoginFailedLabel();
      } else if i == 6 {
        PasswordResetLabel();
      } else {
        EmailVerifiedLabel();
      }
    }
  }

  lemma {:induction false} HeadlineJoin(a: string, b: string, wordStart: bool)
    requires '_' !in a
    ensures HeadlineFrom(a + "_" + b, wordStart) == HeadlineFrom(a, wordStart) + " " + Headline(b)
    decreases |a|
  {
    if a == [] {
      assert a + "_" + b == "_" + b;
      assert ("_" + b)[1..] == b;
    } else {
      assert a[0] != '_';
      assert '_' !in a[1..] by {
        forall i | 0 <= i < |a[1..]| ensures a[1..][i] != '_' {
          assert a[1..][i] == a[i + 1];
        }
      }
      var c := if wordStart then UpperChar(a[0]) else a[0];
      assert (a + "_" + b)[0] == a[0];
      assert (a + "_" + b)[1..] == a[1..] + "_" + b;
      calc {
        HeadlineFrom(a + "_" + b, wordStart);
        [c] + HeadlineFrom(a[1..] + "_" + b, false);
        { HeadlineJoin(a[1..], b, false); }
        [c] + (HeadlineFrom(a[1..], false) + " " + Headline(b));
        ([c] + HeadlineFrom(a[1..], false)) + " " + Headline(b);
        HeadlineFrom(a, wordStart) + " " + Headline(b);
      }
    }
  }

  /**
   * The label is the headline of the event for every known event and for
   * every one-word event; only an unknown event with an underscore keeps
   * its underscores (see `UnknownEventKeepsUnderscore`).
   */
  lemma LabelIsHeadline(e: string)
    requires e in KnownEvents || '_' !in e
    ensures EventLabel(Some(e)) == Headline(e)
  {
    if e in KnownEvents {
      KnownLabelsAreHeadlines();
      var i :| 0 <= i < |KnownEvents| && KnownEvents[i] == e;
    } else {
      UcFirstIsHeadline(e);
    }
  }

  lemma UnknownEventKeepsUnderscore()
    ensures EventLabel(Some("two_factor")) == "Two_factor"
  {
    assert "two_factor" !in KnownEvents;
  }

  /**
   * `event_color`: a fixed colour per known event, gray for anything else;
   * red marks both a deletion and a failed login.
   */
  function EventColor(event: Option<string>): (color: string)
    ensures forall i :: 0 <= i < |KnownEvents| && event == Some(KnownEvents[i]) ==> color == KnownColors[i]
    ensures color == "gray" <==> !IsKnown(event)
    ensures color == "red" <==> event == Some("deleted") || event == Some("login_failed")
  {
    if event == Some("created") then "green"
    else if event == Some("updated") then "blue"
    else if event == Some("deleted") then "red"
    else if event == Some("login") then "emerald"
    else if event == Some("logout") then "orange"
    else if event == Some("login_failed") then "red"
    else if event == Some("password_reset") then "purple"
    else if event == Some("email_verified") then "teal"
    else "gray"
  }

  // ---------------------------------------------------------------------
  // Class names
  // ---------------------------------------------------------------------

  predicate IsSeparator(c: char) {
    c == '\\' || c == '/'
  }

  predicate NoSeparator(s: string) {
    forall i :: 0 <= i < |s| ==> !IsSeparator(s[i])
  }

  /** `basename` ignores trailing separators. */
  function TrimTrailingSeparators(s: string): (r: string)
    ensures r == [] || !IsSeparator(r[|r| - 1])
    ensures r <= s
    decreases |s|
  {
    if s != [] && IsSeparator(s[|s| - 1]) then TrimTrailingSeparators(s[..|s| - 1]) else s
  }

  /** The part of `s` after its last separator. */
  function AfterLastSeparator(s: string): (r: string)
    ensures NoSeparator(r)
    decreases |s|
  {
    if s == [] || IsSeparator(s[|s| - 1]) then []
    else AfterLastSeparator(s[..|s| - 1]) + [s[|s| - 1]]
  }

  /**
   * Laravel's `class_basename`: `basename` of the class name with
   * backslashes turned into slashes.
   */
  function ClassBasename(className: string): (r: string)
    ensures NoSeparator(r)
  {
    AfterLastSeparator(TrimTrailingSeparators(className))
  }

  lemma {:induction false} AfterLastSeparatorAppend(pre: string, name: string)
    requires NoSeparator(name)
    requires pre == [] || IsSeparator(pre[|pre| - 1])
    ensures AfterLastSeparator(pre + name) == name
    decreases |name|
  {
    if name == [] {
      assert pre + name == pre;
    } else {
      var init := name[..|name| - 1];
      var s := pre + name;
      assert s[|s| - 1] == name[|name| - 1];
      assert !IsSeparator(s[|s| - 1]);
      assert s[..|s| - 1] == pre + init;
      assert NoSeparator(init) by {
        forall i | 0 <= i < |init| ensures !IsSeparator(init[i]) {
          assert init[i] == name[i];
        }
      }
      AfterLastSeparatorAppend(pre, init);
      assert AfterLastSeparator(s) == AfterLastSeparator(pre + init) + [s[|s| - 1]];
      assert name == init + [name[|name| - 1]];
    }
  }

  /** The basename of a namespaced class `Ns\Name` is `Name`. */
  lemma ClassBasenameOfQualified(ns: string, name: string)
    requires name != [] && NoSeparator(name)
    ensures ClassBasename(ns + "\\" + name) == name
  {
    var s := ns + "\\" + name;
    assert s[|s| - 1] == name[|name| - 1];
    AfterLastSeparatorAppend(ns + "\\", name);
  }

  /** A class outside any namespace is its own basename. */
  lemma ClassBasenameOfPlain(name: string)
    requires name != [] && NoSeparator(name)
    ensures ClassBasename(name) == name
  {
    assert [] + name == name;
    AfterLastSeparatorAppend([], name);
  }

  /**
   * `subject_type_name`: "Unknown" when the subject type is PHP-falsy,
   * otherwise the basename of the class.
   */
  function SubjectTypeName(subjectType: Option<string>): (r: string)
    ensures !PhpTruthy(subjectType) ==> r == "Unknown"
    ensures PhpTruthy(subjectType) ==> r == ClassBasename(subjectType.value)
  {
    if !PhpTruthy(subjectType) then "Unknown" else ClassBasename(subjectType.value)
  }

  /** `getLogName`: the lower-cased basename of the model's class. */
  function LogName(modelClass: string): (r: string)
    ensures |r| == |ClassBasename(modelClass)|
    ensures forall i :: 0 <= i < |r| ==> !('A' <= r[i] <= 'Z')
  {
    ToLowerIdempotent(ClassBasename(modelClass));
    ToLower(ClassBasename(modelClass))
  }

  // ---------------------------------------------------------------------
  // What a logged model writes
  // ---------------------------------------------------------------------

  /**
   * `getActivityIdentifier`: `name ?? title ?? id ?? 'Unknown'`. Only a
   * null is skipped, so an empty name still wins.
   */
  function Identifier(name: Option<string>, title: Option<string>, id: Option<nat>): (r: string)
    ensures name.Some? ==> r == name.value
    ensures name.None? && title.Some? ==> r == title.value
    ensures name.None? && title.None? && id.Some? ==> r == NatToString(id.value)
    ensures r == "Unknown" && name != Some("Unknown") && title != Some("Unknown")
            ==> name.None? && title.None? && id.None?
  {
    var fromId := if id.Some? then NatToString(id.value) else "Unknown";
    assert id.Some? ==> IsDigit(fromId[0]);
    name.GetOr(title.GetOr(fromId))
  }

  /**
   * `getActivityDescription`: three explicit arms and a default arm; all
   * four read `Model "identifier" was event`.
   */
  function Description(modelClass: string, identifier: string, eventName: string): (r: string)
    ensures r == ClassBasename(modelClass) + " \"" + identifier + "\" was " + eventName
  {
    var happened :=
      if eventName == "created" then "created"
      else if eventName == "updated" then "updated"
      else if eventName == "deleted" then "deleted"
      else eventName;
    ClassBasename(modelClass) + " \"" + identifier + "\" was " + happened
  }

  /** The model whose change is logged. */
  datatype Subject = Subject(modelClass: string, id: Option<nat>, name: Option<string>, title: Option<string>)

  /** The log name of a namespaced model is its lower-cased class name. */
  lemma LogNameOfModel(ns: string, name: string)
    requires name != [] && NoSeparator(name)
    ensures LogName(ns + "\\" + name) == ToLower(name)
  {
    ClassBasenameOfQualified(ns, name);
  }

  // ---------------------------------------------------------------------
  // Scopes
  // ---------------------------------------------------------------------

  /** A `where` on the query: the rows that satisfy `p`, in query order. */
  function Where(xs: seq<Activity>, p: Activity -> bool): (r: seq<Activity>)
    ensures IsSubseq(r, xs)
    ensures forall a :: a in r <==> a in xs && p(a)
  {
    FilterIsSubseq(xs, p);
    Filter(xs, p)
  }

  /**
   * The scopes `forLog`, `forEvent` and `forSubjectType`: one nullable
   * column, picked by `column`, equal to the value.
   */
  function ForColumn(xs: seq<Activity>, column: Activity -> Option<string>, value: string): (r: seq<Activity>)
    ensures IsSubseq(r, xs)
    ensures forall a :: a in r <==> a in xs && column(a) == Some(value)
  {
    Where(xs, (a: Activity) => column(a) == Some(value))
  }

  /** `forLog`: the log name. */
  function ForLog(xs: seq<Activity>, logName: string): seq<Activity> {
    ForColumn(xs, (a: Activity) => a.logName, logName)
  }

  /** `forEvent`: the event. */
  function ForEvent(xs: seq<Activity>, event: string): seq<Activity> {
    ForColumn(xs, (a: Activity) => a.event, event)
  }

  /** `forSubjectType`: the stored subject class. */
  function ForSubjectType(xs: seq<Activity>, subjectType: string): seq<Activity> {
    ForColumn(xs, (a: Activity) => a.subjectType, subjectType)
  }

  /** `where('causer_id', $value)`: the causer id written in decimal is the request value. */
  function ForCauser(xs: seq<Activity>, causerId: string): (r: seq<Activity>)
    ensures IsSubseq(r, xs)
    ensures forall a :: a in r <==> a in xs && a.causerId.Some? && NatToString(a.causerId.value) == causerId
  {
    Where(xs, (a: Activity) => a.causerId.Some? && NatToString(a.causerId.value) == causerId)
  }

  // ---------------------------------------------------------------------
  // Export
  // ---------------------------------------------------------------------

  /** The export's query parameters (the date bounds are not part of this model). */
  datatype ExportFilters = ExportFilters(logName: Option<string>, event: Option<string>, causerId: Option<string>)

  /** Each filter constrains the export only when its parameter is filled. */
  predicate ExportMatches(a: Activity, f: ExportFilters) {
    && (Filled(f.logName) ==> a.logName == f.logName)
    && (Filled(f.event) ==> a.event == f.event)
    && (Filled(f.causerId) ==> a.causerId.Some? && NatToString(a.causerId.value) == f.causerId.value)
  }

  /**
   * The export query over the log in its query order (newest first): the
   * filled filters applied one after another.
   */
  function ExportQuery(xs: seq<Activity>, f: ExportFilters): (r: seq<Activity>)
    ensures IsSubseq(r, xs)
    ensures forall a :: a in r <==> a in xs && ExportMatches(a, f)
  {
    var byLog := if Filled(f.logName) then ForLog(xs, f.logName.value) else xs;
    var byEvent := if Filled(f.event) then ForEvent(byLog, f.event.value) else byLog;
    var r := if Filled(f.causerId) then ForCauser(byEvent, f.causerId.value) else byEvent;
    SubseqRefl(xs);
    SubseqRefl(byLog);
    SubseqRefl(byEvent);
    SubseqTrans(byEvent, byLog, xs);
    SubseqTrans(r, byEvent, xs);
    r
  }

  /** `str_replace('"', '""', $s)`. */
  function Escape(s: string): (r: string)
    ensures |r| >= |s|
    decreases |s|
  {
    if s == [] then []
    else (if s[0] == '"' then "\"\"" else [s[0]]) + Escape(s[1..])
  }

  /** The description cell: the escaped text between double quotes. */
  function Quote(s: string): string {
    "\"" + Escape(s) + "\""
  }

  function SubjectIdText(subjectId: Option<nat>): string {
    if subjectId.Some? then NatToString(subjectId.value) else "N/A"
  }

  /** The values an export line carries, in column order. */
  function Values(a: Activity): (v: seq<string>)
    ensures |v| == 8
  {
    [NatToString(a.id), a.logName.GetOr(""), a.description, a.event.GetOr(""),
     SubjectTypeName(a.subjectType), SubjectIdText(a.subjectId), a.causerName.GetOr("System"), a.createdAt]
  }

  /**
   * The cells the `sprintf` format `%d,%s,"%s",%s,%s,%s,%s,%s` renders:
   * the values, with only the description quoted.
   */
  function Cells(a: Activity): (c: seq<string>)
    ensures |c| == 8
  {
    var v := Values(a);
    v[2 := Quote(v[2])]
  }

  /** Only the description is quoted; every other value is written as it is. */
  lemma OnlyDescriptionQuoted(a: Activity)
    ensures Cells(a)[2] == Quote(a.description)
    ensures forall i :: 0 <= i < 8 && i != 2 ==> Cells(a)[i] == Values(a)[i]
    ensures Values(a)[5] == "N/A" <==> a.subjectId.None?
    ensures a.causerName.None? ==> Values(a)[6] == "System"
  {
    if a.subjectId.Some? {
      var t := NatToString(a.subjectId.value);
      assert IsDigit(t[0]);
      assert t != "N/A";
    }
  }

  /** Cells joined by commas. */
  function JoinCells(cells: seq<string>): string
    decreases |cells|
  {
    if cells == [] then ""
    else if |cells| == 1 then cells[0]
    else cells[0] + "," + JoinCells(cells[1..])
  }

  /** One export line. */
  function CsvLine(a: Activity): string {
    JoinCells(Cells(a)) + "\n"
  }

  const HeaderCells: seq<string> :=
    ["ID", "Log Name", "Description", "Event", "Subject Type", "Subject ID", "Causer", "Created At"]

  /** The fixed first line `ID,Log Name,Description,Event,Subject Type,Subject ID,Causer,Created At`. */
  const Header: string := JoinCells(HeaderCells) + "\n"

  /** The export lines of a list of activities, in list order. */
  function Lines(xs: seq<Activity>): string
    decreases |xs|
  {
    if xs == [] then "" else CsvLine(xs[0]) + Lines(xs[1..])
  }

  lemma {:induction false} LinesSnoc(xs: seq<Activity>, x: Activity)
    ensures Lines(xs + [x]) == Lines(xs) + CsvLine(x)
    decreases |xs|
  {
    if xs == [] {
      assert xs + [x] == [x];
      assert [x][1..] == [];
    } else {
      assert (xs + [x])[0] == xs[0];
      assert (xs + [x])[1..] == xs[1..] + [x];
      LinesSnoc(xs[1..], x);
    }
  }

  /** The loop of `export`: each exported activity appends its line. */
  method AppendLines(csv0: string, selected: seq<Activity>) returns (csv: string)
    ensures csv == csv0 + Lines(selected)
  {
    csv := csv0;
    var i := 0;
    while i < |selected|
      invariant 0 <= i <= |selected|
      invariant csv == csv0 + Lines(selected[..i])
    {
      LinesSnoc(selected[..i], selected[i]);
      TakeNext(selected, i);
      csv := csv + CsvLine(selected[i]);
      i := i + 1;
    }
    assert selected[..|selected|] == selected;
  }

  /** `export`: the header, then one line per activity the filters keep, in query order. */
  method Export(activities: seq<Activity>, filters: ExportFilters) returns (csv: string)
    ensures csv == Header + Lines(ExportQuery(activities, filters))
  {
    var selected := ExportQuery(activities, filters);
    csv := AppendLines(Header, selected);
  }

  // ---------------------------------------------------------------------
  // Reading the export back
  // ---------------------------------------------------------------------

  /** A value that needs no quoting: no comma, no double quote, no newline. */
  predicate Plain(s: string) {
    forall i :: 0 <= i < |s| ==> s[i] != ',' && s[i] != '"' && s[i] != '\n'
  }

  /** An unquoted cell runs up to the next comma or newline. */
  function ReadPlain(s: string): (r: (string, string))
    ensures r.0 + r.1 == s
    decreases |s|
  {
    if s == [] || s[0] == ',' || s[0] == '\n' then ([], s)
    else
      var p := ReadPlain(s[1..]);
      ([s[0]] + p.0, p.1)
  }

  /**
   * The inside of a quoted cell, after its opening quote: `""` stands for
   * one quote and a single quote closes the cell.
   */
  function ReadQuoted(s: string): (r: Option<(string, string)>)
    ensures r.Some? ==> |r.value.1| < |s|
    decreases |s|
  {
    if s == [] then None
    else if s[0] == '"' then
      if |s| >= 2 && s[1] == '"' then
        match ReadQuoted(s[2..])
        case None => None
        case Some(p) => Some(("\"" + p.0, p.1))
      else Some(([], s[1..]))
    else
      match ReadQuoted(s[1..])
      case None => None
      case Some(p) => Some(([s[0]] + p.0, p.1))
  }

  /** A CSV reader's cell: quoted when it starts with a double quote. */
  function ReadCell(s: string): (r: Option<(string, string)>)
    ensures r.Some? ==> |r.value.1| <= |s|
  {
    if s != [] && s[0] == '"' then ReadQuoted(s[1..]) else Some(ReadPlain(s))
  }

  /** A record of `n` cells separated by commas and ended by a newline. */
  function ReadRecord(s: string, n: nat): (r: Option<(seq<string>, string)>)
    requires n >= 1
    ensures r.Some? ==> |r.value.0| == n && |r.value.1| < |s|
    decreases n
  {
    match ReadCell(s)
    case None => None
    case Some(p) =>
      var rest := p.1;
      if rest == [] then None
      else if n == 1 then (if rest[0] == '\n' then Some(([p.0], rest[1..])) else None)
      else if rest[0] != ',' then None
      else
        match ReadRecord(rest[1..], n - 1)
        case None => None
        case Some(q) => Some(([p.0] + q.0, q.1))
  }

  /** All records of eight cells up to the end of the text. */
  function ReadRows(s: string): Option<seq<seq<string>>>
    decreases |s|
  {
    if s == [] then Some([])
    else
      match ReadRecord(s, 8)
      case None => None
      case Some(p) =>
        match ReadRows(p.1)
        case None => None
        case Some(rows) => Some([p.0] + rows)
  }

  /** The escaped text followed by the closing quote reads back as the text. */
  lemma {:induction false} QuotedRoundTrip(d: string, rest: string)
    requires rest == [] || rest[0] != '"'
    ensures ReadQuoted(Escape(d) + "\"" + rest) == Some((d, rest))
    decreases |d|
  {
    var s := Escape(d) + "\"" + rest;
    if d == [] {
      assert s == "\"" + rest;
      assert s[1..] == rest;
    } else {
      QuotedRoundTrip(d[1..], rest);
      var tail := Escape(d[1..]) + "\"" + rest;
      if d[0] == '"' {
        assert s == "\"\"" + tail;
        assert s[2..] == tail;
        assert "\"" + d[1..] == d;
      } else {
        assert s == [d[0]] + tail;
        assert s[1..] == tail;
        assert [d[0]] + d[1..] == d;
      }
    }
  }

  lemma {:induction false} ReadPlainAppend(f: string, x: string)
    requires Plain(f)
    requires x != [] && (x[0] == ',' || x[0] == '\n')
    ensures ReadPlain(f + x) == (f, x)
    decreases |f|
  {
    if f == [] {
      assert f + x == x;
    } else {
      assert (f + x)[0] == f[0];
      assert (f + x)[1..] == f[1..] + x;
      assert Plain(f[1..]) by {
        forall i | 0 <= i < |f[1..]| ensures f[1..][i] != ',' && f[1..][i] != '"' && f[1..][i] != '\n' {
          assert f[1..][i] == f[i + 1];
        }
      }
      ReadPlainAppend(f[1..], x);
      assert [f[0]] + f[1..] == f;
    }
  }

  /** A cell renders its value: unchanged when plain, or quoted. */
  predicate Renders(cell: string, value: string) {
    (cell == value && Plain(value)) || cell == Quote(value)
  }

  lemma ReadCellRendered(cell: string, value: string, x: string)
    requires Renders(cell, value)
    requires x != [] && (x[0] == ',' || x[0] == '\n')
    ensures ReadCell(cell + x) == Some((value, x))
  {
    if cell == Quote(value) {
      var s := cell + x;
      assert s == "\"" + (Escape(value) + "\"" + x);
      assert s[1..] == Escape(value) + "\"" + x;
      QuotedRoundTrip(value, x);
    } else {
      ReadPlainAppend(value, x);
      if value != [] {
        assert (value + x)[0] == value[0];
      }
    }
  }

  /** Cells that render their values read back as those values. */
  lemma {:induction false} RecordRoundTrip(cells: seq<string>, values: seq<string>, rest: string)
    requires |cells| == |values| >= 1
    requires forall i :: 0 <= i < |cells| ==> Renders(cells[i], values[i])
    ensures ReadRecord(JoinCells(cells) + "\n" + rest, |cells|) == Some((values, rest))
    decreases |cells|
  {
    var s := JoinCells(cells) + "\n" + rest;
    if |cells| == 1 {
      assert s == cells[0] + ("\n" + rest);
      ReadCellRendered(cells[0], values[0], "\n" + rest);
      assert ("\n" + rest)[1..] == rest;
      assert [values[0]] == values;
    } else {
      var tail := JoinCells(cells[1..]) + "\n" + rest;
      assert s == cells[0] + ("," + tail);
      ReadCellRendered(cells[0], values[0], "," + tail);
      assert ("," + tail)[1..] == tail;
      RecordRoundTrip(cells[1..], values[1..], rest);
      assert [values[0]] + values[1..] == values;
    }
  }

  /** The digits of a number and "N/A" need no quoting. */
  lemma DigitsArePlain(n: nat)
    ensures Plain(NatToString(n))
  {
    var t := NatToString(n);
    forall i | 0 <= i < |t| ensures t[i] != ',' && t[i] != '"' && t[i] != '\n' {
      assert IsDigit(t[i]);
    }
  }

  /**
   * The values of an activity that are written unquoted hold no comma,
   * double quote or newline.
   */
  predicate SafeToExport(a: Activity) {
    && Plain(a.logName.GetOr(""))
    && Plain(a.event.GetOr(""))
    && Plain(SubjectTypeName(a.subjectType))
    && Plain(a.causerName.GetOr("System"))
    && Plain(a.createdAt)
  }

  /** An export line reads back, cell by cell, as the activity's values. */
  lemma LineRoundTrip(a: Activity, rest: string)
    requires SafeToExport(a)
    ensures ReadRecord(CsvLine(a) + rest, 8) == Some((Values(a), rest))
  {
    var c := Cells(a);
    var v := Values(a);
    DigitsArePlain(a.id);
    if a.subjectId.Some? {
      DigitsArePlain(a.subjectId.value);
    }
    assert Plain(SubjectIdText(a.subjectId));
    forall i | 0 <= i < 8 ensures Renders(c[i], v[i]) {
    }
    RecordRoundTrip(c, v, rest);
    assert CsvLine(a) + rest == JoinCells(c) + "\n" + rest;
  }

  /**
   * The lines of a list of activities read back as one record per activity,
   * in list order.
   */
  lemma {:induction false} LinesRoundTrip(xs: seq<Activity>)
    requires forall i :: 0 <= i < |xs| ==> SafeToExport(xs[i])
    ensures ReadRows(Lines(xs)).Some?
    ensures |ReadRows(Lines(xs)).value| == |xs|
    ensures forall i :: 0 <= i < |xs| ==> ReadRows(Lines(xs)).value[i] == Values(xs[i])
    decreases |xs|
  {
    if xs != [] {
      var tail := xs[1..];
      var rest := Lines(tail);
      LinesRoundTrip(tail);
      LineRoundTrip(xs[0], rest);
      assert Lines(xs) == CsvLine(xs[0]) + rest;
      ReadRowsCons(CsvLine(xs[0]) + rest, Values(xs[0]), rest);
      RowsStep(xs, ReadRows(rest).value);
    }
  }

  /** The row of the first activity followed by the rows of the others are the rows of all of them. */
  lemma RowsStep(xs: seq<Activity>, rows: seq<seq<string>>)
    requires xs != [] && |rows| == |xs| - 1
    requires forall i :: 0 <= i < |rows| ==> rows[i] == Values(xs[1..][i])
    ensures |[Values(xs[0])] + rows| == |xs|
    ensures forall i :: 0 <= i < |xs| ==> ([Values(xs[0])] + rows)[i] == Values(xs[i])
  {
    forall i | 1 <= i < |xs| ensures ([Values(xs[0])] + rows)[i] == Values(xs[i]) {
      assert xs[1..][i - 1] == xs[i];
    }
  }

  /** A non-empty text that starts with a record reads as that record followed by the rows after it. */
  lemma ReadRowsCons(s: string, record: seq<string>, rest: string)
    requires s != [] && ReadRecord(s, 8) == Some((record, rest))
    requires ReadRows(rest).Some?
    ensures ReadRows(s) == Some([record] + ReadRows(rest).value)
  {
  }

  lemma HeaderCellsArePlain()
    ensures forall i :: 0 <= i < |HeaderCells| ==> Plain(HeaderCells[i])
  {
    assert Plain("ID") && Plain("Log Name") && Plain("Description") && Plain("Event");
    assert Plain("Subject Type") && Plain("Subject ID") && Plain("Causer") && Plain("Created At");
  }

  lemma HeaderRoundTrip(rest: string)
    ensures ReadRecord(Header + rest, 8) == Some((HeaderCells, rest))
  {
    HeaderCellsArePlain();
    RecordRoundTrip(HeaderCells, HeaderCells, rest);
  }

  /**
   * The export reads back as the header followed by exactly one record per
   * exported activity, newest first, each holding the activity's values
   * (the description with its quotes restored).
   */
  lemma ExportRoundTrip(activities: seq<Activity>, filters: ExportFilters)
    requires forall a :: a in activities ==> SafeToExport(a)
    ensures var rows := ReadRows(Header + Lines(ExportQuery(activities, filters)));
            var selected := ExportQuery(activities, filters);
            && rows.Some?
            && |rows.value| == 1 + |selected|
            && rows.value[0] == HeaderCells
            && forall i :: 0 <= i < |selected| ==> rows.value[i + 1] == Values(selected[i])
  {
    var selected := ExportQuery(activities, filters);
    forall i | 0 <= i < |selected| ensures SafeToExport(selected[i]) {
      assert selected[i] in selected;
    }
    ExportedRowsRoundTrip(selected);
  }

  /** The header followed by the lines of safe activities reads back as the header cells and their values. */
  lemma ExportedRowsRoundTrip(selected: seq<Activity>)
    requires forall i :: 0 <= i < |selected| ==> SafeToExport(selected[i])
    ensures var rows := ReadRows(Header + Lines(selected));
            && rows.Some?
            && |rows.value| == 1 + |selected|
            && rows.value[0] == HeaderCells
            && forall i :: 0 <= i < |selected| ==> rows.value[i + 1] == Values(selected[i])
  {
    var rest := Lines(selected);
    LinesRoundTrip(selected);
    HeaderRoundTrip(rest);
    RowsAfterRecord(Header, HeaderCells, rest, ReadRows(rest).value);
  }

  /** A record read off the front of the text comes back first, followed by the rows of the remainder. */
  lemma RowsAfterRecord(h: string, record: seq<string>, rest: string, rows: seq<seq<string>>)
    requires h != [] && ReadRecord(h + rest, 8) == Some((record, rest))
    requires ReadRows(rest) == Some(rows)
    ensures var all := ReadRows(h + rest);
            && all.Some?
            && |all.value| == 1 + |rows|
            && all.value[0] == record
            && forall i :: 0 <= i < |rows| ==> all.value[i + 1] == rows[i]
  {
    ReadRowsCons(h + rest, record, rest);
    assert ReadRows(h + rest).value == [record] + rows;
  }

  // ---------------------------------------------------------------------
  // The table
  // ---------------------------------------------------------------------

  datatype Failure = Invalid(field: string, rule: string) | NotFound

  /** The entries that remain after deleting the listed ids. */
  function WithoutIds(xs: seq<Activity>, ids: set<nat>): (r: seq<Activity>)
    ensures IsSubseq(r, xs)
    ensures forall a :: a in r <==> a in xs && a.id !in ids
  {
    Where(xs, (a: Activity) => a.id !in ids)
  }

  predicate HasId(xs: seq<Activity>, id: nat) {
    exists i :: 0 <= i < |xs| && xs[i].id == id
  }

  /** The listed ids that name no entry. */
  predicate AllExist(xs: seq<Activity>, ids: seq<nat>) {
    forall j :: 0 <= j < |ids| ==> HasId(xs, ids[j])
  }

  lemma DeleteAllIsFilled()
    ensures Filled(Some("DELETE_ALL"))
  {
    assert !IsPhpSpace("DELETE_ALL"[0]);
  }

  /** The entry the activity-log trait writes for one event on a model. */
  function Logged(id: nat, subject: Subject, event: string, causerId: Option<nat>,
                  causerName: Option<string>, createdAt: string): (a: Activity)
    ensures a.id == id && a.event == Some(event) && a.subjectType == Some(subject.modelClass)
    ensures a.logName == Some(LogName(subject.modelClass))
    ensures a.description == Description(subject.modelClass, Identifier(subject.name, subject.title, subject.id), event)
  {
    Activity(id, Some(LogName(subject.modelClass)),
      Description(subject.modelClass, Identifier(subject.name, subject.title, subject.id), event),
      Some(event), Some(subject.modelClass), subject.id, causerId, causerName, createdAt)
  }

  class ActivityTable {
    var entries: seq<Activity>
    var nextId: nat

    ghost predicate Valid()
      reads this
    {
      forall i :: 0 <= i < |entries| ==> entries[i].id < nextId
    }

    constructor()
      ensures Valid() && entries == [] && nextId == 1
    {
      entries := [];
      nextId := 1;
    }

    /**
     * The activity-log trait on a saved model: one entry with the model's
     * log name and description (the choice of which saves are logged is
     * not part of this model).
     */
    method Record(subject: Subject, event: string, causerId: Option<nat>, causerName: Option<string>, createdAt: string)
      requires Valid()
      modifies this
      ensures Valid()
      ensures entries == old(entries) + [Logged(old(nextId), subject, event, causerId, causerName, createdAt)]
      ensures nextId == old(nextId) + 1
    {
      entries := entries + [Logged(nextId, subject, event, causerId, causerName, createdAt)];
      nextId := nextId + 1;
    }

    /** `destroy`: the bound entry is deleted; an unknown id is not found. */
    method Destroy(id: nat) returns (r: Result<(), Failure>)
      requires Valid()
      modifies this
      ensures Valid() && nextId == old(nextId)
      ensures !HasId(old(entries), id) ==> r == Err(NotFound) && entries == old(entries)
      ensures HasId(old(entries), id) ==> r.Ok? && entries == WithoutIds(old(entries), {id})
    {
      if !HasId(entries, id) {
        return Err(NotFound);
      }
      entries := WithoutIds(entries, {id});
      r := Ok(());
    }

    /**
     * `bulkDestroy`: the id list is required (and so not empty) and every
     * id must exist; then exactly the listed entries are deleted. A missing
     * id is reported under the rule's key `ids.*`, where Laravel names the
     * element, `ids.0`, `ids.1`, ….
     */
    method BulkDestroy(ids: Option<seq<nat>>) returns (r: Result<(), Failure>)
      requires Valid()
      modifies this
      ensures Valid() && nextId == old(nextId)
      ensures (ids.None? || ids.value == []) ==> r == Err(Invalid("ids", "required"))
      ensures ids.Some? && ids.value != [] && !AllExist(old(entries), ids.value) ==> r == Err(Invalid("ids.*", "exists"))
      ensures r.Err? ==> entries == old(entries)
      ensures r.Ok? <==> ids.Some? && ids.value != [] && AllExist(old(entries), ids.value)
      ensures r.Ok? ==> entries == WithoutIds(old(entries), set j | 0 <= j < |ids.value| :: ids.value[j])
    {
      if ids.None? || ids.value == [] {
        return Err(Invalid("ids", "required"));
      }
      if !AllExist(entries, ids.value) {
        return Err(Invalid("ids.*", "exists"));
      }
      entries := WithoutIds(entries, set j | 0 <= j < |ids.value| :: ids.value[j]);
      r := Ok(());
    }

    /**
     * `clear`: the table is truncated only when the confirmation is exactly
     * `DELETE_ALL`, which also restarts the ids at 1; anything else is
     * rejected and changes nothing.
     */
    method Clear(confirm: Option<string>) returns (r: Result<(), Failure>)
      requires Valid()
      modifies this
      ensures Valid()
      ensures r.Ok? <==> confirm == Some("DELETE_ALL")
      ensures r.Ok? ==> entries == [] && nextId == 1
      ensures r.Err? ==> entries == old(entries) && nextId == old(nextId)
      ensures !Filled(confirm) ==> r == Err(Invalid("confirm", "required"))
    {
      DeleteAllIsFilled();
      if !Filled(confirm) {
        return Err(Invalid("confirm", "required"));
      }
      if confirm.value != "DELETE_ALL" {
        return Err(Invalid("confirm", "in"));
      }
      entries := [];
      nextId := 1;
      r := Ok(());
    }
  }
}
