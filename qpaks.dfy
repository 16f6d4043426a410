/**
  The text-to-record core of the Q-Paks front end (sources/main.py): the
  package and label classification rules, and the transformations of
  `flatpak search`, `flatpak list` and `flatpak remotes` output into search
  results, the installed-app dictionary and the remote-add commands.

  Every `subprocess.check_output` call is replaced by its captured result,
  an input: the decoded text, or `Failed` for the `CalledProcessError` the
  source catches.
 */
module QPaks {
  import opened PyStr
  import PyDict
  import Sorting

  /** The outcome of one `subprocess.check_output` call. */
  datatype Captured = Failed | Output(text: string)

  // =====================================================================
  // valid_package
  // =====================================================================

  const ReservedPrefixes: seq<string> := ["org.freedesktop.", "org.gnome.", "org.kde."]

  /** `valid_package(app_id)`: not a platform runtime, and not empty. */
  predicate ValidPackage(appId: string) {
    !(|| StartsWith(appId, "org.freedesktop.")
      || StartsWith(appId, "org.gnome.")
      || StartsWith(appId, "org.kde.")
      || appId == "")
  }

  /** An id is refused exactly when it is empty or begins with one of the
      reserved prefixes. */
  lemma ValidPackageExactly(appId: string)
    ensures !ValidPackage(appId) <==>
      appId == "" || exists p :: p in ReservedPrefixes && StartsWith(appId, p)
  {
    if StartsWith(appId, "org.freedesktop.") {
      assert ReservedPrefixes[0] == "org.freedesktop.";
    } else if StartsWith(appId, "org.gnome.") {
      assert ReservedPrefixes[1] == "org.gnome.";
    } else if StartsWith(appId, "org.kde.") {
      assert ReservedPrefixes[2] == "org.kde.";
    }
  }

  /** Every id in a reserved family is refused, whatever follows the
      prefix. */
  lemma ReservedFamilyRefused(prefix: string, rest: string)
    requires prefix in ReservedPrefixes
    ensures !ValidPackage(prefix + rest)
  {
    assert (prefix + rest)[..|prefix|] == prefix;
    ValidPackageExactly(prefix + rest);
  }

  /** The prefixes end in a dot: an id that merely shares the letters is
      accepted. */
  lemma PrefixNeedsTheDot()
    ensures ValidPackage("org.kdevelop.KDevelop")
    ensures ValidPackage("org.gnomeish.App")
    ensures !ValidPackage("org.kde.kate")
  {
    assert !StartsWith("org.kdevelop.KDevelop", "org.kde.") by {
      assert "org.kdevelop.KDevelop"[7] != "org.kde."[7];
    }
    assert !StartsWith("org.gnomeish.App", "org.gnome.") by {
      assert "org.gnomeish.App"[9] != "org.gnome."[9];
    }
    assert !StartsWith("org.kdevelop.KDevelop", "org.freedesktop.") by {
      assert "org.kdevelop.KDevelop"[4] != "org.freedesktop."[4];
    }
    assert !StartsWith("org.gnomeish.App", "org.freedesktop.") by {
      assert "org.gnomeish.App"[4] != "org.freedesktop."[4];
    }
    assert !StartsWith("org.kdevelop.KDevelop", "org.gnome.") by {
      assert "org.kdevelop.KDevelop"[4] != "org.gnome."[4];
    }
    assert !StartsWith("org.gnomeish.App", "org.kde.") by {
      assert "org.gnomeish.App"[4] != "org.kde."[4];
    }
    assert "org.kde.kate"[..8] == "org.kde.";
  }

  // =====================================================================
  // SearchThread.get_label
  // =====================================================================

  const Labels: seq<string> := ["Verified & FOSS", "Verified", "FOSS", ""]

  /** `get_label(remotes)`: the first rule that matches wins. */
  function GetLabel(remotes: seq<string>): (l: string)
    ensures l in Labels
  {
    if "flathub-verified-floss" in remotes then "Verified & FOSS"
    else if "flathub-verified" in remotes then "Verified"
    else if "flathub-floss" in remotes then "FOSS"
    else ""
  }

  /** The precedence of one remote tag: 3 for verified-and-FOSS, 2 for
      verified, 1 for FOSS, 0 for any other remote. */
  function TagRank(tag: string): nat {
    if tag == "flathub-verified-floss" then 3
    else if tag == "flathub-verified" then 2
    else if tag == "flathub-floss" then 1
    else 0
  }

  /** The precedence a label stands for. */
  function LabelRank(l: string): nat {
    if l == "Verified & FOSS" then 3
    else if l == "Verified" then 2
    else if l == "FOSS" then 1
    else 0
  }

  /** The highest precedence among the tags, 0 for none. */
  function MaxTagRank(tags: seq<string>): nat {
    if tags == [] then 0
    else
      var rest := MaxTagRank(tags[1..]);
      if TagRank(tags[0]) > rest then TagRank(tags[0]) else rest
  }

  /** The label is the one of the strongest tag present, and the four labels
      have distinct ranks, so this fixes the label. */
  lemma {:induction false} LabelIsStrongestTag(tags: seq<string>)
    ensures LabelRank(GetLabel(tags)) == MaxTagRank(tags)
  {
    if tags != [] {
      LabelIsStrongestTag(tags[1..]);
      assert forall t :: t in tags <==> t == tags[0] || t in tags[1..];
    }
  }

  /** A label is determined by its rank. */
  lemma LabelRankInjective(a: string, b: string)
    requires a in Labels && b in Labels && LabelRank(a) == LabelRank(b)
    ensures a == b
  {
  }

  /** Combining two tag lists gives the stronger of their two labels. */
  lemma LabelOfConcat(a: seq<string>, b: seq<string>)
    ensures GetLabel(a + b) ==
      if LabelRank(GetLabel(a)) >= LabelRank(GetLabel(b)) then GetLabel(a) else GetLabel(b)
  {
    assert forall t :: t in a + b <==> t in a || t in b;
  }

  // =====================================================================
  // add_flatpak_remotes
  // =====================================================================

  /** One configured remote: name, URL and an optional `--subset=` option
      (the empty string for none). */
  datatype Remote = Remote(name: string, url: string, subset: string)

  const FlathubRepo := "https://flathub.org/repo/flathub.flatpakrepo"

  /** The four remotes ensured at startup, in order. */
  const ConfiguredRemotes: seq<Remote> := [
    Remote("flathub", FlathubRepo, ""),
    Remote("flathub-floss", FlathubRepo, "--subset=floss"),
    Remote("flathub-verified_floss", FlathubRepo, "--subset=verified_floss"),
    Remote("flathub-verified", FlathubRepo, "--subset=verified")
  ]

  /** The remote added for verified FOSS apps is spelled with an underscore,
      while `get_label` looks for a hyphen: no tag made only of the
      configured remote names ever earns the label "Verified & FOSS". */
  lemma ConfiguredRemotesNeverVerifiedFoss(tags: seq<string>)
    requires forall t :: t in tags ==> exists r :: r in ConfiguredRemotes && r.name == t
    ensures GetLabel(tags) != "Verified & FOSS"
  {
    forall t | t in tags ensures t != "flathub-verified-floss" {
      var r :| r in ConfiguredRemotes && r.name == t;
      assert "flathub-verified-floss"[16] != "flathub-verified_floss"[16];
    }
  }

  /** An app carried by all four configured remotes is labelled
      "Verified". */
  lemma AllConfiguredRemotesLabelVerified()
    ensures GetLabel(["flathub", "flathub-floss", "flathub-verified_floss", "flathub-verified"]) == "Verified"
  {
    var tags := ["flathub", "flathub-floss", "flathub-verified_floss", "flathub-verified"];
    assert tags[3] == "flathub-verified";
    assert "flathub-verified-floss" !in tags by {
      assert "flathub-verified-floss" != tags[2] by {
        assert "flathub-verified-floss"[16] != tags[2][16];
      }
    }
  }

  /** The remote name a line of `flatpak remotes --user` names: its first
      whitespace token; blank lines name none. */
  function RemoteNameOf(line: string): (name: Option<string>)
    ensures name.Some? ==> name.value != [] && NoSpace(name.value)
    ensures name.None? <==> AllSpace(line)
  {
    var tokens := SplitWs(line);
    SplitWsEmpty(line);
    SplitWsTokens(line);
    if |tokens| > 0 then Some(tokens[0]) else None
  }

  /** The names collected from the lines, in order. */
  function RemoteNames(lines: seq<string>): (names: seq<string>)
    ensures |names| <= |lines|
    ensures forall k :: 0 <= k < |names| ==> names[k] != [] && NoSpace(names[k])
  {
    if lines == [] then []
    else
      var init := RemoteNames(Init(lines));
      match RemoteNameOf(Last(lines))
      case None => init
      case Some(name) => init + [name]
  }

  /** `existing_remotes`: empty when the listing command failed. */
  function ExistingRemotes(out: Captured): (names: seq<string>)
    ensures forall k :: 0 <= k < |names| ==> names[k] != [] && NoSpace(names[k])
  {
    match out
    case Failed => []
    case Output(text) => RemoteNames(Split(Strip(text), '\n'))
  }

  /** The first loop of `add_flatpak_remotes`. */
  method ReadExistingRemotes(out: Captured) returns (existing: seq<string>)
    ensures existing == ExistingRemotes(out)
  {
    existing := [];
    if out.Failed? {
      return;
    }
    var lines := Split(Strip(out.text), '\n');
    var i := 0;
    while i < |lines|
      invariant 0 <= i <= |lines|
      invariant existing == RemoteNames(lines[..i])
    {
      var splitLine := SplitWs(lines[i]);
      if |splitLine| > 0 {
        existing := existing + [splitLine[0]];
      }
      assert Init(lines[..i + 1]) == lines[..i];
      i := i + 1;
    }
    assert lines[..|lines|] == lines;
  }

  /** A line `name<TAB>options` names `name`. */
  lemma RemoteNameOfRow(name: string, options: string)
    requires name != [] && NoSpace(name)
    ensures RemoteNameOf(name + "\t" + options) == Some(name)
  {
    SplitWsPrepend(name, '\t', options);
  }

  /** Listing output made of remote names, one per line, gives those names
      back. */
  lemma {:induction false} ExistingRemotesRoundTrip(names: seq<string>)
    requires forall k :: 0 <= k < |names| ==> names[k] != [] && NoSpace(names[k])
    ensures ExistingRemotes(Output(Join(names, "\n"))) == names
  {
    var text := Join(names, "\n");
    if names == [] {
      assert Split(Strip(text), '\n') == [""];
    } else {
      JoinEnds(names, "\n");
      StripUnpadded(text);
      forall k | 0 <= k < |names| ensures '\n' !in names[k] {
        assert IsSpace('\n');
      }
      SplitJoin(names, '\n');
      RemoteNamesOfWords(names);
    }
  }

  lemma {:induction false} RemoteNamesOfWords(names: seq<string>)
    requires forall k :: 0 <= k < |names| ==> names[k] != [] && NoSpace(names[k])
    ensures RemoteNames(names) == names
  {
    if names != [] {
      RemoteNamesOfWords(Init(names));
      SplitWsWord(Last(names));
      assert Init(names) + [Last(names)] == names;
    }
  }

  /** Python's `list.insert(i, x)` for an index that is not negative: an
      index past the end appends. */
  function ListInsert<T>(s: seq<T>, i: nat, x: T): (r: seq<T>)
    ensures |r| == |s| + 1
    ensures i <= |s| ==> r[..i] == s[..i] && r[i] == x && r[i + 1..] == s[i..]
    ensures i > |s| ==> r == s + [x]
  {
    if i <= |s| then s[..i] + [x] + s[i..] else s + [x]
  }

  /** The `flatpak remote-add` argument vector for one remote. */
  function RemoteAddCommand(r: Remote): (cmd: seq<string>)
    ensures |cmd| == if r.subset == "" then 6 else 7
    ensures cmd[..4] == ["flatpak", "remote-add", "--if-not-exists", "--user"]
    ensures cmd[|cmd| - 2..] == [r.name, r.url]
    ensures r.subset != "" ==> cmd[4] == r.subset
  {
    var cmd := ["flatpak", "remote-add", "--if-not-exists", "--user", r.name, r.url];
    if r.subset != "" then ListInsert(cmd, 4, r.subset) else cmd
  }

  /** The command vectors run for the remotes not already present, in
      configuration order. */
  function PlanRemotes(remotes: seq<Remote>, existing: seq<string>): (cmds: seq<seq<string>>)
    ensures |cmds| <= |remotes|
  {
    if remotes == [] then []
    else
      var init := PlanRemotes(Init(remotes), existing);
      if Last(remotes).name in existing then init else init + [RemoteAddCommand(Last(remotes))]
  }

  /** `add_flatpak_remotes()`: the commands it runs, given what
      `flatpak remotes --user` printed. */
  method AddFlatpakRemotes(remotesOut: Captured) returns (commands: seq<seq<string>>)
    ensures commands == PlanRemotes(ConfiguredRemotes, ExistingRemotes(remotesOut))
  {
    var existing := ReadExistingRemotes(remotesOut);
    var remotes := ConfiguredRemotes;
    commands := [];
    var i := 0;
    while i < |remotes|
      invariant 0 <= i <= |remotes|
      invariant commands == PlanRemotes(remotes[..i], existing)
    {
      var r := remotes[i];
      assert Init(remotes[..i + 1]) == remotes[..i];
      if r.name !in existing {
        var cmd := ["flatpak", "remote-add", "--if-not-exists", "--user", r.name, r.url];
        if r.subset != "" {
          cmd := ListInsert(cmd, 4, r.subset);
        }
        commands := commands + [cmd];
      }
      i := i + 1;
    }
    assert remotes[..|remotes|] == remotes;
  }

  /** The command a plan adds a remote with: `name` is its next-to-last
      argument. */
  predicate AddsRemote(cmd: seq<string>, name: string) {
    |cmd| >= 2 && cmd[|cmd| - 2] == name
  }

  predicate Configures(remotes: seq<Remote>, name: string) {
    exists r :: r in remotes && r.name == name
  }

  /** A remote is added exactly when it is configured and not already
      present. */
  lemma {:induction false} PlanAddsExactlyMissing(remotes: seq<Remote>, existing: seq<string>, name: string)
    ensures (exists c :: c in PlanRemotes(remotes, existing) && AddsRemote(c, name))
        <==> Configures(remotes, name) && name !in existing
  {
    if remotes != [] {
      var init := Init(remotes);
      PlanAddsExactlyMissing(init, existing, name);
      assert remotes == init + [Last(remotes)];
      assert forall r :: r in remotes <==> r in init || r == Last(remotes);
      var cmd := RemoteAddCommand(Last(remotes));
      assert AddsRemote(cmd, Last(remotes).name);
      assert AddsRemote(cmd, name) ==> name == Last(remotes).name;
    }
  }

  /** When the listing failed, nothing counts as present and every
      configured remote gets its command, in order. */
  lemma {:induction false} PlanWithNothingPresent(remotes: seq<Remote>)
    ensures |PlanRemotes(remotes, [])| == |remotes|
    ensures forall k :: 0 <= k < |remotes| ==> PlanRemotes(remotes, [])[k] == RemoteAddCommand(remotes[k])
  {
    if remotes != [] {
      PlanWithNothingPresent(Init(remotes));
    }
  }

  /** Once every configured remote is present, a second start adds
      nothing. */
  lemma {:induction false} PlanIdempotent(remotes: seq<Remote>, existing: seq<string>)
    requires forall r :: r in remotes ==> r.name in existing
    ensures PlanRemotes(remotes, existing) == []
  {
    if remotes != [] {
      assert Last(remotes) in remotes;
      assert forall r :: r in Init(remotes) ==> r in remotes;
      PlanIdempotent(Init(remotes), existing);
    }
  }

  /** A failed `flatpak remotes` call leads to the four remote-add commands,
      the subset option inserted at index 4 where one is configured. */
  lemma StartupAfterFailedListing()
    ensures PlanRemotes(ConfiguredRemotes, ExistingRemotes(Failed)) == [
      ["flatpak", "remote-add", "--if-not-exists", "--user", "flathub", FlathubRepo],
      ["flatpak", "remote-add", "--if-not-exists", "--user", "--subset=floss", "flathub-floss", FlathubRepo],
      ["flatpak", "remote-add", "--if-not-exists", "--user", "--subset=verified_floss", "flathub-verified_floss", FlathubRepo],
      ["flatpak", "remote-add", "--if-not-exists", "--user", "--subset=verified", "flathub-verified", FlathubRepo]
    ]
  {
    PlanWithNothingPresent(ConfiguredRemotes);
    assert RemoteAddCommand(ConfiguredRemotes[0]) == ["flatpak", "remote-add", "--if-not-exists", "--user", "flathub", FlathubRepo];
    var prefix := ["flatpak", "remote-add", "--if-not-exists", "--user"];
    assert RemoteAddCommand(ConfiguredRemotes[1]) == prefix + ["--subset=floss", "flathub-floss", FlathubRepo];
    assert RemoteAddCommand(ConfiguredRemotes[2]) == prefix + ["--subset=verified_floss", "flathub-verified_floss", FlathubRepo];
    assert RemoteAddCommand(ConfiguredRemotes[3]) == prefix + ["--subset=verified", "flathub-verified", FlathubRepo];
    var plan := PlanRemotes(ConfiguredRemotes, []);
    assert |plan| == 4;
    assert plan[0] == RemoteAddCommand(ConfiguredRemotes[0]);
    assert plan[1] == RemoteAddCommand(ConfiguredRemotes[1]);
    assert plan[2] == RemoteAddCommand(ConfiguredRemotes[2]);
    assert plan[3] == RemoteAddCommand(ConfiguredRemotes[3]);
    assert ExistingRemotes(Failed) == [];
    var expected := [
      ["flatpak", "remote-add", "--if-not-exists", "--user", "flathub", FlathubRepo],
      ["flatpak", "remote-add", "--if-not-exists", "--user", "--subset=floss", "flathub-floss", FlathubRepo],
      ["flatpak", "remote-add", "--if-not-exists", "--user", "--subset=verified_floss", "flathub-verified_floss", FlathubRepo],
      ["flatpak", "remote-add", "--if-not-exists", "--user", "--subset=verified", "flathub-verified", FlathubRepo]
    ];
    assert |expected| == 4;
    assert plan[0] == expected[0];
    assert plan[1] == expected[1];
    assert plan[2] == expected[2];
    assert plan[3] == expected[3];
    assert plan == expected;
  }

  // =====================================================================
  // SearchThread: query normalisation and the parsing loop of run()
  // =====================================================================

  /** One dictionary appended to `results`. */
  datatype SearchResult = SearchResult(name: string, labelText: string, applicationId: string)

  const NoMatches := "No matches found"

  /** `query.strip().lower()`, as `SearchThread.__init__` stores it. */
  function NormalizeQuery(query: string): (q: string)
    ensures |q| <= |query|
    ensures Unpadded(q)
    ensures forall i :: 0 <= i < |q| ==> !IsUpper(q[i])
  {
    var s := Strip(query);
    LowerAt(s);
    LowerNormalizes(s);
    Lower(s)
  }

  /** The case-insensitive match of `run()`: the query is in the lower-cased
      name or the lower-cased id. */
  predicate QueryMatches(q: string, name: string, appId: string) {
    Contains(Lower(name), q) || Contains(Lower(appId), q)
  }

  /** The record one line of `flatpak search` output contributes, if
      any. */
  function SearchLine(q: string, line: string): Option<SearchResult> {
    var parts := Split(line, '\t');
    if |parts| >= 3 then
      var applicationId := Strip(parts[0]);
      var name := Strip(parts[1]);
      var labelText := GetLabel(Split(Strip(parts[2]), ','));
      if QueryMatches(q, name, applicationId) then Some(SearchResult(name, labelText, applicationId))
      else None
    else None
  }

  /** What every kept record satisfies. */
  predicate GoodResult(q: string, r: SearchResult) {
    && Unpadded(r.name)
    && Unpadded(r.applicationId)
    && r.labelText in Labels
    && QueryMatches(q, r.name, r.applicationId)
  }

  /** The records of the lines, in line order. */
  function SearchLines(q: string, lines: seq<string>): (results: seq<SearchResult>)
    ensures |results| <= |lines|
    ensures forall k :: 0 <= k < |results| ==> GoodResult(q, results[k])
  {
    if lines == [] then []
    else
      var init := SearchLines(q, Init(lines));
      match SearchLine(q, Last(lines))
      case None => init
      case Some(r) => init + [r]
  }

  /** What `run()` emits for normalised query `q`. */
  function SearchResults(q: string, out: Captured): (results: seq<SearchResult>)
    ensures forall k :: 0 <= k < |results| ==> GoodResult(q, results[k])
  {
    match out
    case Failed => []
    case Output(text) =>
      if Contains(text, NoMatches) then [] else SearchLines(q, Split(Strip(text), '\n'))
  }

  /** `SearchThread(query).run()`, the search command's output given. */
  method Search(query: string, out: Captured) returns (results: seq<SearchResult>)
    ensures results == SearchResults(NormalizeQuery(query), out)
  {
    var q := NormalizeQuery(query);
    results := [];
    if out.Failed? {
      return;
    }
    if Contains(out.text, NoMatches) {
      return;
    }
    var lines := Split(Strip(out.text), '\n');
    var i := 0;
    while i < |lines|
      invariant 0 <= i <= |lines|
      invariant results == SearchLines(q, lines[..i])
    {
      var parts := Split(lines[i], '\t');
      if |parts| >= 3 {
        var applicationId := Strip(parts[0]);
        var name := Strip(parts[1]);
        var remotes := Split(Strip(parts[2]), ',');
        var labelText := GetLabel(remotes);
        if Contains(Lower(name), q) || Contains(Lower(applicationId), q) {
          results := results + [SearchResult(name, labelText, applicationId)];
        }
      }
      assert Init(lines[..i + 1]) == lines[..i];
      i := i + 1;
    }
    assert lines[..|lines|] == lines;
  }

  /** The sentinel anywhere in the output empties the result, whatever the
      other lines say. */
  lemma SentinelEmptiesSearch(q: string, before: string, after: string)
    ensures SearchResults(q, Output(before + NoMatches + after)) == []
  {
    ContainsInfix(before, NoMatches, after);
  }

  /** Lines are parsed independently and their records kept in order. */
  lemma {:induction false} SearchLinesAppend(q: string, a: seq<string>, b: seq<string>)
    ensures SearchLines(q, a + b) == SearchLines(q, a) + SearchLines(q, b)
  {
    if b != [] {
      SearchLinesAppend(q, a, Init(b));
      assert Init(a + b) == a + Init(b);
      assert Last(a + b) == Last(b);
    } else {
      assert a + b == a;
    }
  }

  /** A record is in the result exactly when some line yields it. */
  lemma {:induction false} SearchLinesMembership(q: string, lines: seq<string>, r: SearchResult)
    ensures r in SearchLines(q, lines) <==> exists i :: 0 <= i < |lines| && SearchLine(q, lines[i]) == Some(r)
  {
    if r in SearchLines(q, lines) {
      SearchLinesSound(q, lines, r);
    }
    if exists i :: 0 <= i < |lines| && SearchLine(q, lines[i]) == Some(r) {
      var i :| 0 <= i < |lines| && SearchLine(q, lines[i]) == Some(r);
      SearchLinesComplete(q, lines, i, r);
    }
  }

  lemma {:induction false} SearchLinesSound(q: string, lines: seq<string>, r: SearchResult)
    requires r in SearchLines(q, lines)
    ensures exists i :: 0 <= i < |lines| && SearchLine(q, lines[i]) == Some(r)
  {
    var init := Init(lines);
    if r in SearchLines(q, init) {
      SearchLinesSound(q, init, r);
      var i :| 0 <= i < |init| && SearchLine(q, init[i]) == Some(r);
      assert lines[i] == init[i];
    } else {
      assert SearchLine(q, lines[|lines| - 1]) == Some(r);
    }
  }

  lemma {:induction false} SearchLinesComplete(q: string, lines: seq<string>, i: nat, r: SearchResult)
    requires i < |lines| && SearchLine(q, lines[i]) == Some(r)
    ensures r in SearchLines(q, lines)
  {
    var init := Init(lines);
    if i < |init| {
      assert init[i] == lines[i];
      SearchLinesComplete(q, init, i, r);
    }
  }

  /** A line with fewer than three tab-separated fields yields nothing. */
  lemma ShortLineSkipped(q: string, line: string)
    requires |Split(line, '\t')| < 3
    ensures SearchLine(q, line) == None
  {
  }

  /** An empty query keeps every line with at least three fields: the empty
      string is in every name. */
  lemma EmptyQueryKeepsAll(line: string)
    requires |Split(line, '\t')| >= 3
    ensures SearchLine("", line).Some?
  {
    EmptyContained(Lower(Strip(Split(line, '\t')[1])));
  }

  /** One row of `flatpak search --columns=application,name,remotes`. */
  datatype SearchRow = SearchRow(application: string, name: string, remotes: seq<string>)

  /** A row as flatpak prints it: tab-separated columns, the remotes joined
      with commas. */
  function FormatRow(row: SearchRow): string {
    row.application + "\t" + row.name + "\t" + Join(row.remotes, ",")
  }

  function FormatRows(rows: seq<SearchRow>): seq<string> {
    if rows == [] then [] else [FormatRow(rows[0])] + FormatRows(rows[1..])
  }

  /** A row whose columns survive the round trip: an id without
      whitespace, a name without tabs, newlines or surrounding whitespace,
      and at least one remote, each a word without commas. */
  ghost predicate PrintableRow(row: SearchRow) {
    && row.application != [] && NoSpace(row.application)
    && Unpadded(row.name) && '\t' !in row.name && '\n' !in row.name
    && row.remotes != []
    && forall k :: 0 <= k < |row.remotes| ==>
         row.remotes[k] != [] && NoSpace(row.remotes[k]) && ',' !in row.remotes[k]
  }

  /** The record a row is meant to give under query `q`. */
  function RowResult(q: string, row: SearchRow): Option<SearchResult> {
    if QueryMatches(q, row.name, row.application)
    then Some(SearchResult(row.name, GetLabel(row.remotes), row.application))
    else None
  }

  function RowResults(q: string, rows: seq<SearchRow>): seq<SearchResult> {
    if rows == [] then []
    else
      var rest := RowResults(q, rows[1..]);
      match RowResult(q, rows[0])
      case None => rest
      case Some(r) => [r] + rest
  }

  lemma {:induction false} NoSpaceJoin(parts: seq<string>, sep: string)
    requires NoSpace(sep)
    requires forall k :: 0 <= k < |parts| ==> NoSpace(parts[k])
    ensures NoSpace(Join(parts, sep))
  {
    if |parts| > 1 {
      NoSpaceJoin(parts[1..], sep);
      var j := parts[0] + sep + Join(parts[1..], sep);
      forall i | 0 <= i < |j| ensures !IsSpace(j[i]) {
        if i < |parts[0]| {
          assert j[i] == parts[0][i];
        } else if i < |parts[0]| + |sep| {
          assert j[i] == sep[i - |parts[0]|];
        } else {
          assert j[i] == Join(parts[1..], sep)[i - |parts[0]| - |sep|];
        }
      }
    }
  }

  /** Parsing a printed row gives back its id, its name and the label of its
      remotes. */
  lemma RowRoundTrip(q: string, row: SearchRow)
    requires PrintableRow(row)
    ensures SearchLine(q, FormatRow(row)) == RowResult(q, row)
  {
    RowFields(row);
    TagsRoundTrip(row.remotes);
    StripUnpadded(row.application);
    StripUnpadded(row.name);
  }

  /** The three columns of a printed row split back apart at the tabs. */
  lemma RowFields(row: SearchRow)
    requires PrintableRow(row)
    ensures Split(FormatRow(row), '\t') == [row.application, row.name, Join(row.remotes, ",")]
  {
    var tags := Join(row.remotes, ",");
    NoSpaceJoin(row.remotes, ",");
    assert '\t' !in tags by { assert IsSpace('\t'); }
    SplitNoSep(tags, '\t');
    SplitPrepend(row.name, '\t', tags);
    assert '\t' !in row.application by { assert IsSpace('\t'); }
    SplitPrepend(row.application, '\t', row.name + "\t" + tags);
    assert FormatRow(row) == row.application + "\t" + (row.name + "\t" + tags);
  }

  /** The comma-joined remotes column strips to itself and splits back into
      the remotes. */
  lemma TagsRoundTrip(remotes: seq<string>)
    requires remotes != []
    requires forall k :: 0 <= k < |remotes| ==>
      remotes[k] != [] && NoSpace(remotes[k]) && ',' !in remotes[k]
    ensures Strip(Join(remotes, ",")) == Join(remotes, ",")
    ensures Split(Join(remotes, ","), ',') == remotes
  {
    var tags := Join(remotes, ",");
    NoSpaceJoin(remotes, ",");
    JoinEnds(remotes, ",");
    assert tags[0] == remotes[0][0];
    StripUnpadded(tags);
    SplitJoin(remotes, ',');
  }

  /** Printed rows, one per line, parse back into the records of the rows
      the query selects, in row order. */
  lemma SearchRoundTrip(q: string, rows: seq<SearchRow>)
    requires forall k :: 0 <= k < |rows| ==> PrintableRow(rows[k])
    requires !Contains(Join(FormatRows(rows), "\n"), NoMatches)
    ensures SearchResults(q, Output(Join(FormatRows(rows), "\n"))) == RowResults(q, rows)
  {
    var lines := FormatRows(rows);
    var text := Join(lines, "\n");
    FormatRowsFacts(rows);
    if rows == [] {
      assert Split(Strip(text), '\n') == [""];
      assert SearchLines(q, [""]) == [];
    } else {
      PrintedRowsUnpadded(rows);
      StripUnpadded(text);
      SplitJoin(lines, '\n');
      SearchLinesOfRows(q, rows);
    }
  }

  /** Printed rows start with an id and end with a remote, so the whole
      output has no surrounding whitespace. */
  lemma PrintedRowsUnpadded(rows: seq<SearchRow>)
    requires rows != []
    requires forall k :: 0 <= k < |rows| ==> PrintableRow(rows[k])
    ensures Unpadded(Join(FormatRows(rows), "\n"))
  {
    var lines := FormatRows(rows);
    var text := Join(lines, "\n");
    FormatRowsEnds(rows);
    JoinEnds(lines, "\n");
    var first, last := FormatRow(rows[0]), FormatRow(Last(rows));
    RowEnds(rows[0]);
    RowEnds(Last(rows));
    assert text[0] == text[..|first|][0] == first[0];
    assert text[|text| - 1] == text[|text| - |last|..][|last| - 1] == last[|last| - 1];
  }

  /** The first and last printed lines are those of the first and last
      rows. */
  lemma {:induction false} FormatRowsEnds(rows: seq<SearchRow>)
    requires rows != []
    ensures FormatRows(rows) != []
    ensures FormatRows(rows)[0] == FormatRow(rows[0])
    ensures Last(FormatRows(rows)) == FormatRow(Last(rows))
  {
    if |rows| > 1 {
      FormatRowsEnds(rows[1..]);
      assert Last(rows[1..]) == Last(rows);
    }
  }

  /** A printed row begins with a character of its id and ends with one of
      its last remote, neither of them whitespace. */
  lemma RowEnds(row: SearchRow)
    requires PrintableRow(row)
    ensures |FormatRow(row)| > 0
    ensures !IsSpace(FormatRow(row)[0])
    ensures !IsSpace(FormatRow(row)[|FormatRow(row)| - 1])
  {
    var tags := Join(row.remotes, ",");
    NoSpaceJoin(row.remotes, ",");
    JoinEnds(row.remotes, ",");
    assert FormatRow(row)[0] == row.application[0];
    assert FormatRow(row)[|FormatRow(row)| - 1] == tags[|tags| - 1];
  }

  lemma {:induction false} FormatRowsFacts(rows: seq<SearchRow>)
    requires forall k :: 0 <= k < |rows| ==> PrintableRow(rows[k])
    ensures |FormatRows(rows)| == |rows|
    ensures forall k :: 0 <= k < |rows| ==> FormatRows(rows)[k] == FormatRow(rows[k])
    ensures forall k :: 0 <= k < |rows| ==> '\n' !in FormatRows(rows)[k]
  {
    if rows != [] {
      FormatRowsFacts(rows[1..]);
      var row := rows[0];
      var tags := Join(row.remotes, ",");
      NoSpaceJoin(row.remotes, ",");
      assert IsSpace('\n');
      assert '\n' !in row.application && '\n' !in tags;
      assert FormatRow(row) == row.application + "\t" + row.name + "\t" + tags;
    }
  }

  lemma {:induction false} SearchLinesOfRows(q: string, rows: seq<SearchRow>)
    requires forall k :: 0 <= k < |rows| ==> PrintableRow(rows[k])
    ensures SearchLines(q, FormatRows(rows)) == RowResults(q, rows)
  {
    if rows != [] {
      SearchLinesOfRows(q, rows[1..]);
      FormatRowsFacts(rows);
      assert FormatRows(rows) == [FormatRow(rows[0])] + FormatRows(rows[1..]);
      SearchLinesAppend(q, [FormatRow(rows[0])], FormatRows(rows[1..]));
      RowRoundTrip(q, rows[0]);
      assert SearchLines(q, [FormatRow(rows[0])]) ==
        SearchLines(q, []) + (match SearchLine(q, FormatRow(rows[0])) case None => [] case Some(r) => [r]);
    }
  }

  /** Search does not apply `valid_package`: a platform runtime whose name
      matches the query is listed like any app. */
  lemma RuntimeListedBySearch(q: string, row: SearchRow)
    requires PrintableRow(row)
    requires StartsWith(row.application, "org.freedesktop.")
    requires QueryMatches(q, row.name, row.application)
    ensures !ValidPackage(row.application)
    ensures SearchLine(q, FormatRow(row)) == Some(SearchResult(row.name, GetLabel(row.remotes), row.application))
  {
    RowRoundTrip(q, row);
  }

  // =====================================================================
  // SearchDialog.search_results: the label filter
  // =====================================================================

  /** The results shown for filter value `filterType`, in order. */
  function FilterByLabel(results: seq<SearchResult>, filterType: string): (shown: seq<SearchResult>)
    ensures |shown| <= |results|
    ensures filterType != "" ==> forall k :: 0 <= k < |shown| ==> shown[k].labelText == filterType
  {
    if results == [] then []
    else
      var init := FilterByLabel(Init(results), filterType);
      if filterType != "" && Last(results).labelText != filterType then init else init + [Last(results)]
  }

  /** What the dialog shows: the "App not found" label, or the apps that
      pass the filter (possibly none). */
  datatype SearchView = AppNotFound | Listed(apps: seq<SearchResult>)

  /** `search_results(results_json)`, the filter combo's value given. */
  method ShowSearchResults(results: seq<SearchResult>, filterType: string) returns (view: SearchView)
    ensures view == if results == [] then AppNotFound else Listed(FilterByLabel(results, filterType))
  {
    if |results| == 0 {
      return AppNotFound;
    }
    var shown := [];
    var i := 0;
    while i < |results|
      invariant 0 <= i <= |results|
      invariant shown == FilterByLabel(results[..i], filterType)
    {
      var result := results[i];
      assert Init(results[..i + 1]) == results[..i];
      if filterType != "" && result.labelText != filterType {
        i := i + 1;
        continue;
      }
      shown := shown + [result];
      i := i + 1;
    }
    assert results[..|results|] == results;
    view := Listed(shown);
  }

  /** "All Apps" shows every result. */
  lemma {:induction false} FilterAllKeepsAll(results: seq<SearchResult>)
    ensures FilterByLabel(results, "") == results
  {
    if results != [] {
      FilterAllKeepsAll(Init(results));
      assert Init(results) + [Last(results)] == results;
    }
  }

  /** Any other filter shows exactly the results carrying that label. */
  lemma {:induction false} FilterKeepsExactlyLabel(results: seq<SearchResult>, filterType: string, r: SearchResult)
    requires filterType != ""
    ensures r in FilterByLabel(results, filterType) <==> r in results && r.labelText == filterType
  {
    if results != [] {
      FilterKeepsExactlyLabel(Init(results), filterType, r);
      assert results == Init(results) + [Last(results)];
    }
  }

  /** The filter keeps the order of the results. */
  lemma {:induction false} FilterAppend(a: seq<SearchResult>, b: seq<SearchResult>, filterType: string)
    ensures FilterByLabel(a + b, filterType) == FilterByLabel(a, filterType) + FilterByLabel(b, filterType)
  {
    if b != [] {
      FilterAppend(a, Init(b), filterType);
      assert Init(a + b) == a + Init(b);
      assert Last(a + b) == Last(b);
    } else {
      assert a + b == a;
    }
  }

  /** When results exist but none passes the filter, the dialog shows
      neither an app nor "App not found". */
  lemma FilteredOutShowsNothing()
    ensures FilterByLabel([SearchResult("GIMP", "", "org.gimp.GIMP")], "FOSS") == []
  {
    var results := [SearchResult("GIMP", "", "org.gimp.GIMP")];
    assert Init(results) == [];
  }

  // =====================================================================
  // InstalledApps: get_installed_apps and the ordering of update()
  // =====================================================================

  /** The dictionary `{"ID": app_id, "Name": name}`. */
  datatype InstalledApp = InstalledApp(id: string, name: string)

  /** The entry a line of `flatpak list --columns=application,name`
      stores, if any: a non-empty line of exactly two tab fields whose id is
      a valid package. The fields are not stripped. */
  function InstalledLine(line: string): (entry: Option<InstalledApp>)
    ensures entry.Some? ==> ValidPackage(entry.value.id)
    ensures entry.Some? ==> '\t' !in entry.value.id && '\t' !in entry.value.name
    ensures entry.Some? ==> line == entry.value.id + "\t" + entry.value.name
  {
    SplitFieldsFree(line, '\t');
    JoinSplit(line, '\t');
    if line == "" then None
    else
      var parts := Split(line, '\t');
      if |parts| == 2 && ValidPackage(parts[0]) then Some(InstalledApp(parts[0], parts[1]))
      else None
  }

  /** Each entry sits under its own name, and its id is a valid package. */
  ghost predicate KeyedByName(apps: PyDict.Dict<InstalledApp>) {
    forall name :: name in apps.items ==>
      apps.items[name].name == name && ValidPackage(apps.items[name].id)
  }

  /** The dictionary the lines build, a later line overwriting an earlier
      one with the same name. */
  function InstalledLines(lines: seq<string>): (apps: PyDict.Dict<InstalledApp>)
    ensures PyDict.Valid(apps)
    ensures KeyedByName(apps)
  {
    if lines == [] then PyDict.Empty()
    else
      var init := InstalledLines(Init(lines));
      match InstalledLine(Last(lines))
      case None => init
      case Some(app) => PyDict.Put(init, app.name, app)
  }

  /** What `get_installed_apps()` returns: empty when the command
      failed. */
  function Installed(out: Captured): (apps: PyDict.Dict<InstalledApp>)
    ensures PyDict.Valid(apps)
    ensures KeyedByName(apps)
  {
    match out
    case Failed => PyDict.Empty()
    case Output(text) => InstalledLines(Split(Strip(text), '\n'))
  }

  /** `get_installed_apps()`, the list command's output given. */
  method GetInstalledApps(out: Captured) returns (apps: PyDict.Dict<InstalledApp>)
    ensures apps == Installed(out)
  {
    apps := PyDict.Empty();
    if out.Failed? {
      return;
    }
    var lines := Split(Strip(out.text), '\n');
    var i := 0;
    while i < |lines|
      invariant 0 <= i <= |lines|
      invariant apps == InstalledLines(lines[..i])
    {
      var line := lines[i];
      InstalledStep(lines, i);
      if line != "" {
        var parts := Split(line, '\t');
        if |parts| == 2 {
          var appId, name := parts[0], parts[1];
          if ValidPackage(appId) {
            apps := PyDict.Put(apps, name, InstalledApp(appId, name));
          }
        }
      }
      i := i + 1;
    }
    assert lines[..|lines|] == lines;
  }

  /** One more line extends the dictionary the way the loop body does. */
  lemma InstalledStep(lines: seq<string>, i: nat)
    requires i < |lines|
    ensures var parts := Split(lines[i], '\t');
      InstalledLines(lines[..i + 1]) ==
        if lines[i] != "" && |parts| == 2 && ValidPackage(parts[0]) then
          PyDict.Put(InstalledLines(lines[..i]), parts[1], InstalledApp(parts[0], parts[1]))
        else InstalledLines(lines[..i])
  {
    assert Init(lines[..i + 1]) == lines[..i];
  }

  /** Line `line` stores an entry under `name`. */
  predicate StoresName(line: string, name: string) {
    InstalledLine(line).Some? && InstalledLine(line).value.name == name
  }

  /** A name is present exactly when some accepted line carries it. */
  lemma InstalledMembership(lines: seq<string>, name: string)
    ensures name in InstalledLines(lines).items <==> exists i :: 0 <= i < |lines| && StoresName(lines[i], name)
  {
    if name in InstalledLines(lines).items {
      var i := InstalledSound(lines, name);
    }
    if exists i :: 0 <= i < |lines| && StoresName(lines[i], name) {
      var i :| 0 <= i < |lines| && StoresName(lines[i], name);
      InstalledComplete(lines, i, name);
    }
  }

  lemma {:induction false} InstalledSound(lines: seq<string>, name: string) returns (i: nat)
    requires name in InstalledLines(lines).items
    ensures i < |lines| && StoresName(lines[i], name)
  {
    var init := Init(lines);
    if name in InstalledLines(init).items {
      i := InstalledSound(init, name);
      assert lines[i] == init[i];
    } else {
      i := |lines| - 1;
    }
  }

  lemma {:induction false} InstalledComplete(lines: seq<string>, i: nat, name: string)
    requires i < |lines| && StoresName(lines[i], name)
    ensures name in InstalledLines(lines).items
  {
    var init := Init(lines);
    if i < |init| {
      assert init[i] == lines[i];
      InstalledComplete(init, i, name);
    }
  }

  /** The last accepted line with a given name decides that name's
      entry. */
  lemma {:induction false} LastLineWins(lines: seq<string>, i: nat)
    requires i < |lines| && InstalledLine(lines[i]).Some?
    requires forall j :: i < j < |lines| ==> !StoresName(lines[j], InstalledLine(lines[i]).value.name)
    ensures InstalledLine(lines[i]).value.name in InstalledLines(lines).items
    ensures InstalledLines(lines).items[InstalledLine(lines[i]).value.name] == InstalledLine(lines[i]).value
  {
    var app := InstalledLine(lines[i]).value;
    if i < |lines| - 1 {
      assert Init(lines)[i] == lines[i];
      LastLineWins(Init(lines), i);
      assert !StoresName(lines[|lines| - 1], app.name);
    }
  }

  /** A row `id<TAB>name` with a valid id and no other tab is stored as
      that id under that name. */
  lemma InstalledRowRoundTrip(appId: string, name: string)
    requires ValidPackage(appId)
    requires '\t' !in appId && '\t' !in name
    ensures InstalledLine(appId + "\t" + name) == Some(InstalledApp(appId, name))
  {
    SplitNoSep(name, '\t');
    SplitPrepend(appId, '\t', name);
  }

  /** A row with a third tab field is refused, whatever its id. */
  lemma ThreeFieldsRefused(a: string, b: string, c: string)
    requires '\t' !in a && '\t' !in b && '\t' !in c
    ensures InstalledLine(a + "\t" + b + "\t" + c) == None
  {
    SplitNoSep(c, '\t');
    SplitPrepend(b, '\t', c);
    assert a + "\t" + b + "\t" + c == a + ['\t'] + (b + ['\t'] + c);
    SplitPrepend(a, '\t', b + "\t" + c);
  }

  /** Of two valid lines with the same name, the later one's id is kept. */
  lemma DuplicateNameOverwrites(pre: seq<string>, first: string, second: string, name: string)
    requires ValidPackage(first) && ValidPackage(second)
    requires '\t' !in first && '\t' !in second && '\t' !in name
    ensures name in InstalledLines(pre + [first + "\t" + name, second + "\t" + name]).items
    ensures InstalledLines(pre + [first + "\t" + name, second + "\t" + name]).items[name]
      == InstalledApp(second, name)
  {
    var lines := pre + [first + "\t" + name, second + "\t" + name];
    InstalledRowRoundTrip(second, name);
    assert Last(lines) == second + "\t" + name;
  }

  /** What the installed-apps widget shows. */
  datatype InstalledView = NoAppsInstalled | AppList(apps: seq<InstalledApp>)

  /** `InstalledApps.update()`: the installed entries in ascending order
      of name, or the "No Flatpak apps are installed yet" label. */
  method Update(out: Captured) returns (view: InstalledView)
    ensures view.NoAppsInstalled? <==> Installed(out).items == map[]
    ensures view.AppList? ==> forall i, j :: 0 <= i < j < |view.apps| ==>
      Sorting.Less(view.apps[i].name, view.apps[j].name)
    ensures view.AppList? ==> forall a :: a in view.apps <==> a in Installed(out).items.Values
  {
    var installedApps := GetInstalledApps(out);
    if PyDict.Len(installedApps) == 0 {
      return NoAppsInstalled;
    }
    var names := PyDict.SortedKeys(installedApps);
    var shown := PyDict.ValuesAt(installedApps, names);
    ShownInNameOrder(installedApps, names, shown);
    view := AppList(shown);
  }

  /** Entries listed in the order of their sorted names are strictly
      ascending by name and are exactly the dictionary's entries. */
  lemma ShownInNameOrder(apps: PyDict.Dict<InstalledApp>, names: seq<string>, shown: seq<InstalledApp>)
    requires PyDict.Valid(apps) && KeyedByName(apps)
    requires Sorting.StrictlyAscending(names)
    requires forall n :: n in names <==> n in apps.items
    requires |shown| == |names|
    requires forall k :: 0 <= k < |names| ==> shown[k] == apps.items[names[k]]
    ensures forall i, j :: 0 <= i < j < |shown| ==> Sorting.Less(shown[i].name, shown[j].name)
    ensures forall a :: a in shown <==> a in apps.items.Values
  {
    forall i, j | 0 <= i < j < |shown| ensures Sorting.Less(shown[i].name, shown[j].name) {
      assert shown[i].name == names[i] && shown[j].name == names[j];
    }
    forall a | a in apps.items.Values ensures a in shown {
      var n :| n in apps.items && apps.items[n] == a;
      var k :| 0 <= k < |names| && names[k] == n;
      assert shown[k] == a;
    }
  }
}
