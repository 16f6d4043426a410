/**
  The older Fedora-packaged variant of the Q-Paks front end
  (packages/fedora/q-paks-0.2/main.py): its package rule, the parsing of
  `flatpak search --columns=application,name` output, and the two-stage
  parsing of `get_installed_apps` — the ids from `flatpak list`, then one
  `flatpak info` block per id, read into a dictionary of details and keyed
  by the app's final `Name`.

  This variant catches no `CalledProcessError`: every command output is an
  input string here, and a failing command is outside the model. The
  per-id `flatpak info` call is the function parameter `info`.
 */
module QPaksLegacy {
  import opened PyStr
  import PyDict
  import Sorting
  import QPaks

  // =====================================================================
  // valid_package
  // =====================================================================

  /** `valid_package(app_id)`, as this file spells it. */
  predicate ValidPackage(appId: string) {
    !(|| StartsWith(appId, "org.freedesktop.")
      || StartsWith(appId, "org.gnome.")
      || StartsWith(appId, "org.kde.")
      || appId == "")
  }

  /** The rule is the one the current front end uses. */
  lemma SameRuleAsFrontEnd(appId: string)
    ensures ValidPackage(appId) <==> QPaks.ValidPackage(appId)
  {
  }

  // =====================================================================
  // SearchThread.run
  // =====================================================================

  /** The dictionary `{"app_id": app_id, "name": name}`. */
  datatype SearchHit = SearchHit(appId: string, name: string)

  /** The record one line contributes: the line is stripped and tested as a
      whole; an accepted line gives its first whitespace token as the id
      and the other tokens, joined by single spaces, as the name. */
  function SearchLine(line: string): (hit: Option<SearchHit>)
    ensures hit.Some? <==> ValidPackage(Strip(line))
  {
    var stripped := Strip(line);
    if ValidPackage(stripped) then
      AcceptedLineHasToken(stripped);
      var parts := SplitWs(stripped);
      Some(SearchHit(parts[0], Join(parts[1..], " ")))
    else None
  }

  /** A stripped line that passes the package rule is not empty and starts
      with a non-whitespace character, so `parts[0]` exists. */
  lemma AcceptedLineHasToken(stripped: string)
    requires Unpadded(stripped) && ValidPackage(stripped)
    ensures |SplitWs(stripped)| >= 1
    ensures SplitWs(stripped)[0] == stripped[..WordLength(stripped)]
  {
    FirstToken(stripped);
  }

  /** Testing the whole stripped line is the same as testing its first
      token, because the reserved prefixes hold no whitespace. */
  lemma LineTestIsIdTest(line: string)
    requires !AllSpace(line)
    ensures |SplitWs(Strip(line))| >= 1
    ensures ValidPackage(Strip(line)) <==> ValidPackage(SplitWs(Strip(line))[0])
  {
    var s := Strip(line);
    StripEmptyIffAllSpace(line);
    FirstToken(s);
    FirstWordTest(s);
  }

  lemma FirstWordTest(s: string)
    requires s != [] && !IsSpace(s[0])
    ensures ValidPackage(s) <==> ValidPackage(s[..WordLength(s)])
  {
    FirstWordPrefix(s, "org.freedesktop.");
    FirstWordPrefix(s, "org.gnome.");
    FirstWordPrefix(s, "org.kde.");
  }

  /** The id of every record is a whitespace-free valid package. */
  lemma HitIdIsValid(line: string)
    requires SearchLine(line).Some?
    ensures ValidPackage(SearchLine(line).value.appId)
    ensures SearchLine(line).value.appId != [] && NoSpace(SearchLine(line).value.appId)
  {
    var s := Strip(line);
    StripEmptyIffAllSpace(line);
    LineTestIsIdTest(line);
    SplitWsTokens(s);
  }

  /** A name column of any spacing comes back with its words joined by
      single spaces. */
  lemma NameColumnCollapsed(appId: string, nameColumn: string)
    requires ValidPackage(appId) && NoSpace(appId)
    requires nameColumn != [] && Unpadded(nameColumn)
    ensures SearchLine(appId + "\t" + nameColumn) ==
      Some(SearchHit(appId, Join(SplitWs(nameColumn), " ")))
  {
    var line := appId + "\t" + nameColumn;
    assert line[0] == appId[0];
    assert line[|line| - 1] == nameColumn[|nameColumn| - 1];
    StripUnpadded(line);
    assert IsSpace('\t');
    assert line == appId + ['\t'] + nameColumn;
    SplitWsPrepend(appId, '\t', nameColumn);
    assert !AllSpace(line) by { assert !IsSpace(line[0]); }
    LineTestIsIdTest(line);
    assert SplitWs(line)[1..] == SplitWs(nameColumn);
  }

  /** A row printed from an id and a name of single-spaced words parses
      back into that id and name. */
  lemma SearchRowRoundTrip(appId: string, words: seq<string>)
    requires ValidPackage(appId) && NoSpace(appId)
    requires words != []
    requires forall k :: 0 <= k < |words| ==> words[k] != [] && NoSpace(words[k])
    ensures SearchLine(appId + "\t" + Join(words, " ")) == Some(SearchHit(appId, Join(words, " ")))
  {
    var name := Join(words, " ");
    JoinEnds(words, " ");
    assert name[0] == words[0][0];
    assert name[|name| - 1] == Last(words)[|Last(words)| - 1];
    NameColumnCollapsed(appId, name);
    SplitWsJoin(words);
  }

  /** A blank line gives no record. */
  lemma BlankLineSkipped(line: string)
    requires AllSpace(line)
    ensures SearchLine(line) == None
  {
    StripEmptyIffAllSpace(line);
  }

  /** The records of the lines, in line order. */
  function SearchLines(lines: seq<string>): (hits: seq<SearchHit>)
    ensures |hits| <= |lines|
  {
    if lines == [] then []
    else
      var init := SearchLines(Init(lines));
      match SearchLine(Last(lines))
      case None => init
      case Some(hit) => init + [hit]
  }

  /** What `run()` emits: nothing when the sentinel appears anywhere in the
      output, which is split into lines without being stripped first. */
  function SearchHits(out: string): seq<SearchHit> {
    if Contains(out, QPaks.NoMatches) then [] else SearchLines(Split(out, '\n'))
  }

  /** `SearchThread(query).run()`, the search command's output given. */
  method RunSearch(out: string) returns (results: seq<SearchHit>)
    ensures results == SearchHits(out)
  {
    results := [];
    if Contains(out, QPaks.NoMatches) {
      return;
    }
    var lines := Split(out, '\n');
    var i := 0;
    while i < |lines|
      invariant 0 <= i <= |lines|
      invariant results == SearchLines(lines[..i])
    {
      var line := Strip(lines[i]);
      if ValidPackage(line) {
        AcceptedLineHasToken(line);
        var parts := SplitWs(line);
        var appId := parts[0];
        var name := Join(parts[1..], " ");
        results := results + [SearchHit(appId, name)];
      }
      assert Init(lines[..i + 1]) == lines[..i];
      i := i + 1;
    }
    assert lines[..|lines|] == lines;
  }

  /** The sentinel anywhere in the output empties the result. */
  lemma SentinelEmptiesSearch(before: string, after: string)
    ensures SearchHits(before + QPaks.NoMatches + after) == []
  {
    ContainsInfix(before, QPaks.NoMatches, after);
  }

  /** Lines are parsed independently and their records kept in order. */
  lemma {:induction false} SearchLinesAppend(a: seq<string>, b: seq<string>)
    ensures SearchLines(a + b) == SearchLines(a) + SearchLines(b)
  {
    if b != [] {
      SearchLinesAppend(a, Init(b));
      assert Init(a + b) == a + Init(b);
      assert Last(a + b) == Last(b);
    } else {
      assert a + b == a;
    }
  }

  /** A record is in the result exactly when some line yields it. */
  lemma SearchLinesMembership(lines: seq<string>, hit: SearchHit)
    ensures hit in SearchLines(lines) <==> exists i :: 0 <= i < |lines| && SearchLine(lines[i]) == Some(hit)
  {
    if hit in SearchLines(lines) {
      SearchLinesSound(lines, hit);
    }
    if exists i :: 0 <= i < |lines| && SearchLine(lines[i]) == Some(hit) {
      var i :| 0 <= i < |lines| && SearchLine(lines[i]) == Some(hit);
      SearchLinesComplete(lines, i);
    }
  }

  lemma {:induction false} SearchLinesSound(lines: seq<string>, hit: SearchHit)
    requires hit in SearchLines(lines)
    ensures exists i :: 0 <= i < |lines| && SearchLine(lines[i]) == Some(hit)
  {
    var init := Init(lines);
    if hit in SearchLines(init) {
      SearchLinesSound(init, hit);
      var i :| 0 <= i < |init| && SearchLine(init[i]) == Some(hit);
      assert lines[i] == init[i];
    } else {
      assert SearchLine(lines[|lines| - 1]) == Some(hit);
    }
  }

  lemma {:induction false} SearchLinesComplete(lines: seq<string>, i: nat)
    requires i < |lines| && SearchLine(lines[i]).Some?
    ensures SearchLine(lines[i]).value in SearchLines(lines)
  {
    var init := Init(lines);
    if i < |init| {
      assert init[i] == lines[i];
      SearchLinesComplete(init, i);
    }
  }

  // =====================================================================
  // get_installed_apps: the ids from `flatpak list`
  // =====================================================================

  /** The stripped lines that pass the package rule, in order. */
  function InstalledIds(lines: seq<string>): (ids: seq<string>)
    ensures |ids| <= |lines|
    ensures forall k :: 0 <= k < |ids| ==> ValidPackage(ids[k]) && Unpadded(ids[k])
  {
    if lines == [] then []
    else
      var init := InstalledIds(Init(lines));
      var line := Strip(Last(lines));
      if ValidPackage(line) then init + [line] else init
  }

  /** The first loop of `get_installed_apps()`. */
  method ListInstalledIds(out: string) returns (appIds: seq<string>)
    ensures appIds == InstalledIds(Split(out, '\n'))
  {
    appIds := [];
    var lines := Split(out, '\n');
    var i := 0;
    while i < |lines|
      invariant 0 <= i <= |lines|
      invariant appIds == InstalledIds(lines[..i])
    {
      var line := Strip(lines[i]);
      if ValidPackage(line) {
        StripIdempotent(lines[i]);
        appIds := appIds + [Strip(line)];
      }
      assert Init(lines[..i + 1]) == lines[..i];
      i := i + 1;
    }
    assert lines[..|lines|] == lines;
  }

  /** An id is listed exactly when it passes the package rule and some line
      strips to it. */
  lemma InstalledIdsExactly(lines: seq<string>, id: string)
    ensures id in InstalledIds(lines) <==>
      ValidPackage(id) && exists i :: 0 <= i < |lines| && Strip(lines[i]) == id
  {
    if id in InstalledIds(lines) {
      var i := InstalledIdSound(lines, id);
    }
    if ValidPackage(id) && exists i :: 0 <= i < |lines| && Strip(lines[i]) == id {
      var i :| 0 <= i < |lines| && Strip(lines[i]) == id;
      InstalledIdComplete(lines, i);
    }
  }

  lemma {:induction false} InstalledIdSound(lines: seq<string>, id: string) returns (i: nat)
    requires id in InstalledIds(lines)
    ensures ValidPackage(id) && i < |lines| && Strip(lines[i]) == id
  {
    var init := Init(lines);
    if id in InstalledIds(init) {
      i := InstalledIdSound(init, id);
      assert lines[i] == init[i];
    } else {
      i := |lines| - 1;
    }
  }

  lemma {:induction false} InstalledIdComplete(lines: seq<string>, i: nat)
    requires i < |lines| && ValidPackage(Strip(lines[i]))
    ensures Strip(lines[i]) in InstalledIds(lines)
  {
    var init := Init(lines);
    if i < |init| {
      assert init[i] == lines[i];
      InstalledIdComplete(init, i);
    }
  }

  /** The ids keep the order of their lines. */
  lemma {:induction false} InstalledIdsAppend(a: seq<string>, b: seq<string>)
    ensures InstalledIds(a + b) == InstalledIds(a) + InstalledIds(b)
  {
    if b != [] {
      InstalledIdsAppend(a, Init(b));
      assert Init(a + b) == a + Init(b);
      assert Last(a + b) == Last(b);
    } else {
      assert a + b == a;
    }
  }

  // =====================================================================
  // get_installed_apps: one `flatpak info` block
  // =====================================================================

  /** The initial `Name`: the first three lines run together, cut before
      the first `-`, and stripped. */
  function InfoName(lines: seq<string>): string {
    Strip(Split(Concat(SliceTo(lines, 3)), '-')[0])
  }

  /** The initial name has no surrounding whitespace and no `-`. */
  lemma InfoNameFacts(lines: seq<string>)
    ensures Unpadded(InfoName(lines))
    ensures '-' !in InfoName(lines)
  {
    var field := Split(Concat(SliceTo(lines, 3)), '-')[0];
    SplitFieldsFree(Concat(SliceTo(lines, 3)), '-');
    StripPadded(field);
    var i: nat :| PaddedAt(field, Strip(field), i);
    assert Strip(field) == field[i..i + |Strip(field)|];
  }

  /** Output that opens with a blank line and a title line
      `name - summary` starts with the name from the title. */
  lemma InfoNameFromTitle(blank: string, name: string, summary: string, third: string, more: seq<string>)
    requires AllSpace(blank) && Unpadded(name) && '-' !in name
    ensures InfoName([blank, name + " - " + summary, third] + more) == name
  {
    var lines := [blank, name + " - " + summary, third] + more;
    assert SliceTo(lines, 3) == [blank, name + " - " + summary, third];
    var title := name + " - " + summary;
    var head := blank + name + " ";
    var tail := " " + summary + (third + "");
    var first3 := [blank, title, third];
    assert first3[1..] == [title, third];
    assert [title, third][1..] == [third];
    assert [third][1..] == [];
    assert Concat([third]) == third + "";
    assert Concat([title, third]) == title + (third + "");
    assert Concat(first3) == blank + (title + (third + ""));
    assert Concat(SliceTo(lines, 3)) == head + ['-'] + tail;
    assert '-' !in blank by { assert !IsSpace('-'); }
    SplitPrepend(head, '-', tail);
    StripAround(blank, name, " ");
  }

  /** The key and value a line `key: value` sets, if it has a colon: the
      text before the first colon stripped, and the text from two
      characters after it stripped (empty when the line ends first). */
  function InfoEntry(line: string): (entry: Option<(string, string)>)
    ensures entry.None? <==> ':' !in line
  {
    match Index(line, ':')
    case None => None
    case Some(columnI) => Some((Strip(line[..columnI]), Strip(SliceFrom(line, columnI + 2))))
  }

  /** The first colon of `key + ":" + rest` is the one after `key`. */
  lemma IndexAfterKey(key: string, rest: string)
    requires ':' !in key
    ensures Index(key + ":" + rest, ':') == Some(|key|)
  {
    var line := key + ":" + rest;
    assert line[|key|] == ':';
    assert line[..|key|] == key;
  }

  /** Whatever character follows the colon is dropped, the rest is the
      value. */
  lemma InfoEntrySkipsOneChar(key: string, c: char, rest: string)
    requires ':' !in key
    ensures InfoEntry(key + ":" + [c] + rest) == Some((Strip(key), Strip(rest)))
  {
    var line := key + ":" + [c] + rest;
    assert line == key + ":" + ([c] + rest);
    IndexAfterKey(key, [c] + rest);
    assert line[..|key|] == key;
    assert line[|key| + 2..] == rest;
  }

  /** A line that ends at its colon sets the key to the empty value. */
  lemma InfoEntryBareColon(key: string)
    requires ':' !in key
    ensures InfoEntry(key + ":") == Some((Strip(key), ""))
  {
    assert key + ":" == key + ":" + "";
    IndexAfterKey(key, "");
    assert (key + ":")[..|key|] == key;
  }

  /** `key: value` reads back as that key and value. */
  lemma InfoFieldRoundTrip(key: string, value: string)
    requires ':' !in key && Unpadded(key) && Unpadded(value)
    ensures InfoEntry(key + ": " + value) == Some((key, value))
  {
    assert key + ": " + value == key + ":" + [' '] + value;
    InfoEntrySkipsOneChar(key, ' ', value);
    StripUnpadded(key);
    StripUnpadded(value);
  }

  /** The details after the lines, each line with a colon storing its
      value under its key. */
  function InfoFields(details: PyDict.Dict<string>, lines: seq<string>): (r: PyDict.Dict<string>)
    requires PyDict.Valid(details)
    ensures PyDict.Valid(r)
    ensures details.items.Keys <= r.items.Keys
  {
    if lines == [] then details
    else
      var init := InfoFields(details, Init(lines));
      match InfoEntry(Last(lines))
      case None => init
      case Some((key, val)) => PyDict.Put(init, key, val)
  }

  /** The `app_details` dictionary one `flatpak info` output gives. */
  function ParseInfo(out: string): (details: PyDict.Dict<string>)
    ensures "Name" in details.items
  {
    var lines := Split(out, '\n');
    InfoFields(PyDict.Put(PyDict.Empty(), "Name", InfoName(lines)), SliceFrom(lines, 3))
  }

  /** The body of the per-id loop of `get_installed_apps()`, up to the
      store into `apps`. */
  method ReadInfo(out: string) returns (appDetails: PyDict.Dict<string>)
    ensures appDetails == ParseInfo(out)
  {
    var lines := Split(out, '\n');
    appDetails := PyDict.Put(PyDict.Empty(), "Name", InfoName(lines));
    ghost var start := appDetails;
    var rest := SliceFrom(lines, 3);
    var i := 0;
    while i < |rest|
      invariant 0 <= i <= |rest|
      invariant PyDict.Valid(appDetails)
      invariant appDetails == InfoFields(start, rest[..i])
    {
      var line := rest[i];
      match InfoEntry(line) {
        case None =>
        case Some((key, val)) =>
          appDetails := PyDict.Put(appDetails, key, val);
      }
      InfoStep(start, rest, i);
      i := i + 1;
    }
    assert rest[..|rest|] == rest;
  }

  /** One more line stores its key and value, if it has a colon. */
  lemma InfoStep(details: PyDict.Dict<string>, lines: seq<string>, i: nat)
    requires PyDict.Valid(details) && i < |lines|
    ensures InfoFields(details, lines[..i + 1]) ==
      match InfoEntry(lines[i])
      case None => InfoFields(details, lines[..i])
      case Some((key, val)) => PyDict.Put(InfoFields(details, lines[..i]), key, val)
  {
    assert Init(lines[..i + 1]) == lines[..i];
  }

  /** The line `key` last appears on decides its value. */
  lemma {:induction false} InfoLastWins(details: PyDict.Dict<string>, lines: seq<string>, i: nat)
    requires PyDict.Valid(details)
    requires i < |lines| && InfoEntry(lines[i]).Some?
    requires forall j :: i < j < |lines| && InfoEntry(lines[j]).Some? ==>
      InfoEntry(lines[j]).value.0 != InfoEntry(lines[i]).value.0
    ensures InfoEntry(lines[i]).value.0 in InfoFields(details, lines).items
    ensures InfoFields(details, lines).items[InfoEntry(lines[i]).value.0] == InfoEntry(lines[i]).value.1
  {
    if i < |lines| - 1 {
      assert Init(lines)[i] == lines[i];
      InfoLastWins(details, Init(lines), i);
    }
  }

  /** A key no line sets keeps the value it started with. */
  lemma {:induction false} InfoUntouched(details: PyDict.Dict<string>, lines: seq<string>, key: string)
    requires PyDict.Valid(details) && key in details.items
    requires forall j :: 0 <= j < |lines| && InfoEntry(lines[j]).Some? ==> InfoEntry(lines[j]).value.0 != key
    ensures InfoFields(details, lines).items[key] == details.items[key]
  {
    if lines != [] {
      InfoUntouched(details, Init(lines), key);
    }
  }

  /** Line `line` sets key `key`. */
  predicate SetsKey(line: string, key: string) {
    InfoEntry(line).Some? && InfoEntry(line).value.0 == key
  }

  /** A key is present exactly when it was, or some line sets it. */
  lemma InfoKeys(details: PyDict.Dict<string>, lines: seq<string>, key: string)
    requires PyDict.Valid(details)
    ensures key in InfoFields(details, lines).items <==>
      key in details.items || exists j :: 0 <= j < |lines| && SetsKey(lines[j], key)
  {
    if key in InfoFields(details, lines).items && key !in details.items {
      InfoKeySound(details, lines, key);
    }
    if exists j :: 0 <= j < |lines| && SetsKey(lines[j], key) {
      var j :| 0 <= j < |lines| && SetsKey(lines[j], key);
      InfoKeyComplete(details, lines, j);
    }
  }

  lemma {:induction false} InfoKeySound(details: PyDict.Dict<string>, lines: seq<string>, key: string)
    requires PyDict.Valid(details)
    requires key in InfoFields(details, lines).items && key !in details.items
    ensures exists j :: 0 <= j < |lines| && SetsKey(lines[j], key)
  {
    var init := Init(lines);
    if key in InfoFields(details, init).items {
      InfoKeySound(details, init, key);
      var j :| 0 <= j < |init| && SetsKey(init[j], key);
      assert lines[j] == init[j];
    } else {
      assert SetsKey(lines[|lines| - 1], key);
    }
  }

  lemma {:induction false} InfoKeyComplete(details: PyDict.Dict<string>, lines: seq<string>, j: nat)
    requires PyDict.Valid(details)
    requires j < |lines| && InfoEntry(lines[j]).Some?
    ensures InfoEntry(lines[j]).value.0 in InfoFields(details, lines).items
  {
    var init := Init(lines);
    if j < |init| {
      assert init[j] == lines[j];
      InfoKeyComplete(details, init, j);
    }
  }

  /** Unless a later `Name:` line overrides it, the app's name is the one
      cut from the first three lines. */
  lemma NameFromTitleUnlessOverridden(out: string)
    requires forall j :: 3 <= j < |Split(out, '\n')| && InfoEntry(Split(out, '\n')[j]).Some? ==>
      InfoEntry(Split(out, '\n')[j]).value.0 != "Name"
    ensures ParseInfo(out).items["Name"] == InfoName(Split(out, '\n'))
  {
    var lines := Split(out, '\n');
    var rest := SliceFrom(lines, 3);
    forall j | 0 <= j < |rest| && InfoEntry(rest[j]).Some? ensures InfoEntry(rest[j]).value.0 != "Name" {
      assert rest[j] == lines[j + 3];
    }
    InfoUntouched(PyDict.Put(PyDict.Empty(), "Name", InfoName(lines)), rest, "Name");
  }

  // =====================================================================
  // get_installed_apps: the apps dictionary, and update()
  // =====================================================================

  /** Each entry's details carry the name it is stored under. */
  ghost predicate KeyedByName(apps: PyDict.Dict<PyDict.Dict<string>>) {
    forall n :: n in apps.items ==> "Name" in apps.items[n].items && apps.items[n].items["Name"] == n
  }

  /** A details function that always carries a `Name`. */
  ghost predicate Named(details: string -> PyDict.Dict<string>) {
    forall appId :: "Name" in details(appId).items
  }

  /** The details `flatpak info` gives for each id. */
  function DetailsOf(info: string -> string): (details: string -> PyDict.Dict<string>)
    ensures Named(details)
  {
    assert forall appId :: "Name" in ParseInfo(info(appId)).items;
    appId => ParseInfo(info(appId))
  }

  /** The final name in the details of one id. */
  function AppName(appId: string, details: string -> PyDict.Dict<string>): string
    requires Named(details)
  {
    details(appId).items["Name"]
  }

  /** The apps dictionary after the ids: each id's details stored under
      their final name, a later id with the same name overwriting an
      earlier one. */
  function InstalledApps(ids: seq<string>, details: string -> PyDict.Dict<string>): (apps: PyDict.Dict<PyDict.Dict<string>>)
    requires Named(details)
    ensures PyDict.Valid(apps)
  {
    if ids == [] then PyDict.Empty()
    else PyDict.Put(InstalledApps(Init(ids), details), AppName(Last(ids), details), details(Last(ids)))
  }

  /** `get_installed_apps()`: the list output and the info command given. */
  method GetInstalledApps(listOut: string, info: string -> string) returns (apps: PyDict.Dict<PyDict.Dict<string>>)
    ensures apps == InstalledApps(InstalledIds(Split(listOut, '\n')), DetailsOf(info))
  {
    var appIds := ListInstalledIds(listOut);
    ghost var details := DetailsOf(info);
    apps := PyDict.Empty();
    var i := 0;
    while i < |appIds|
      invariant 0 <= i <= |appIds|
      invariant apps == InstalledApps(appIds[..i], details)
    {
      var appDetails := ReadInfo(info(appIds[i]));
      assert appDetails == details(appIds[i]);
      apps := PyDict.Put(apps, appDetails.items["Name"], appDetails);
      AppsStep(appIds, details, i);
      i := i + 1;
    }
    assert appIds[..|appIds|] == appIds;
  }

  /** One more id stores its details under their name. */
  lemma AppsStep(ids: seq<string>, details: string -> PyDict.Dict<string>, i: nat)
    requires Named(details) && i < |ids|
    ensures InstalledApps(ids[..i + 1], details) ==
      PyDict.Put(InstalledApps(ids[..i], details), details(ids[i]).items["Name"], details(ids[i]))
  {
    assert Init(ids[..i + 1]) == ids[..i];
  }

  /** Every entry is stored under the name its details carry. */
  lemma {:induction false} AppsKeyedByName(ids: seq<string>, details: string -> PyDict.Dict<string>)
    requires Named(details)
    ensures KeyedByName(InstalledApps(ids, details))
  {
    if ids != [] {
      AppsKeyedByName(Init(ids), details);
    }
  }

  /** A name is present exactly when the details of some id carry it. */
  lemma AppsMembership(ids: seq<string>, details: string -> PyDict.Dict<string>, name: string)
    requires Named(details)
    ensures name in InstalledApps(ids, details).items <==>
      exists i :: 0 <= i < |ids| && AppName(ids[i], details) == name
  {
    if name in InstalledApps(ids, details).items {
      AppsSound(ids, details, name);
    }
    if exists i :: 0 <= i < |ids| && AppName(ids[i], details) == name {
      var i :| 0 <= i < |ids| && AppName(ids[i], details) == name;
      AppsComplete(ids, details, i);
    }
  }

  lemma {:induction false} AppsSound(ids: seq<string>, details: string -> PyDict.Dict<string>, name: string)
    requires Named(details)
    requires name in InstalledApps(ids, details).items
    ensures exists i :: 0 <= i < |ids| && AppName(ids[i], details) == name
  {
    var init := Init(ids);
    if name in InstalledApps(init, details).items {
      AppsSound(init, details, name);
      var i :| 0 <= i < |init| && AppName(init[i], details) == name;
      assert ids[i] == init[i];
    } else {
      assert AppName(ids[|ids| - 1], details) == name;
    }
  }

  lemma {:induction false} AppsComplete(ids: seq<string>, details: string -> PyDict.Dict<string>, i: nat)
    requires Named(details) && i < |ids|
    ensures AppName(ids[i], details) in InstalledApps(ids, details).items
  {
    var init := Init(ids);
    if i < |init| {
      assert init[i] == ids[i];
      AppsComplete(init, details, i);
    }
  }

  /** The last id whose details carry a name decides that name's entry. */
  lemma {:induction false} LastIdWins(ids: seq<string>, details: string -> PyDict.Dict<string>, i: nat)
    requires Named(details) && i < |ids|
    requires forall j :: i < j < |ids| ==> AppName(ids[j], details) != AppName(ids[i], details)
    ensures AppName(ids[i], details) in InstalledApps(ids, details).items
    ensures InstalledApps(ids, details).items[AppName(ids[i], details)] == details(ids[i])
  {
    if i < |ids| - 1 {
      assert Init(ids)[i] == ids[i];
      LastIdWins(Init(ids), details, i);
    }
  }

  /** What the installed-apps widget shows. */
  datatype InstalledView = NoAppsInstalled | AppList(apps: seq<PyDict.Dict<string>>)

  /** `InstalledApps.update()`: the details in ascending order of name, or
      the "No Flatpak apps are installed yet" label. */
  method Update(listOut: string, info: string -> string) returns (view: InstalledView)
    ensures view.NoAppsInstalled? <==> InstalledApps(InstalledIds(Split(listOut, '\n')), DetailsOf(info)).items == map[]
    ensures view.AppList? ==> forall k :: 0 <= k < |view.apps| ==> "Name" in view.apps[k].items
    ensures view.AppList? ==> forall i, j :: 0 <= i < j < |view.apps| ==>
      Sorting.Less(view.apps[i].items["Name"], view.apps[j].items["Name"])
    ensures view.AppList? ==> forall a :: a in view.apps <==>
      a in InstalledApps(InstalledIds(Split(listOut, '\n')), DetailsOf(info)).items.Values
  {
    var installedApps := GetInstalledApps(listOut, info);
    AppsKeyedByName(InstalledIds(Split(listOut, '\n')), DetailsOf(info));
    view := Present(installedApps);
  }

  /** The display part of `update()`, for a given apps dictionary. */
  method Present(installedApps: PyDict.Dict<PyDict.Dict<string>>) returns (view: InstalledView)
    requires PyDict.Valid(installedApps) && KeyedByName(installedApps)
    ensures view.NoAppsInstalled? <==> installedApps.items == map[]
    ensures view.AppList? ==> forall k :: 0 <= k < |view.apps| ==> "Name" in view.apps[k].items
    ensures view.AppList? ==> forall i, j :: 0 <= i < j < |view.apps| ==>
      Sorting.Less(view.apps[i].items["Name"], view.apps[j].items["Name"])
    ensures view.AppList? ==> forall a :: a in view.apps <==> a in installedApps.items.Values
  {
    if PyDict.Len(installedApps) == 0 {
      return NoAppsInstalled;
    }
    var names := PyDict.SortedKeys(installedApps);
    var shown := PyDict.ValuesAt(installedApps, names);
    ShownInNameOrder(installedApps, names, shown);
    view := AppList(shown);
  }

  /** Details listed in the order of their sorted names are strictly
      ascending by name and are exactly the dictionary's entries. */
  lemma ShownInNameOrder(apps: PyDict.Dict<PyDict.Dict<string>>, names: seq<string>, shown: seq<PyDict.Dict<string>>)
    requires PyDict.Valid(apps) && KeyedByName(apps)
    requires Sorting.StrictlyAscending(names)
    requires forall n :: n in names <==> n in apps.items
    requires |shown| == |names|
    requires forall k :: 0 <= k < |names| ==> shown[k] == apps.items[names[k]]
    ensures forall k :: 0 <= k < |shown| ==> "Name" in shown[k].items && shown[k].items["Name"] == names[k]
    ensures forall i, j :: 0 <= i < j < |shown| ==> Sorting.Less(shown[i].items["Name"], shown[j].items["Name"])
    ensures forall a :: a in shown <==> a in apps.items.Values
  {
    forall a | a in apps.items.Values ensures a in shown {
      var n :| n in apps.items && apps.items[n] == a;
      var k :| 0 <= k < |names| && names[k] == n;
      assert shown[k] == a;
    }
  }
}
