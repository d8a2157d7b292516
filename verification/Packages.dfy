/** The package-database parser, and the status-file printer of the benchmark corpus. */
module Packages {
  import opened Text
  import opened JsonValue
  import opened Components

  /** One control stanza: field names in lower case, values trimmed. */
  type Stanza = map<string, string>

  predicate IsLineBreak(c: char) {
    '\n' <= c <= '\r' || '\U{1C}' <= c <= '\U{1E}'
  }

  predicate SingleLine(s: string) {
    forall c | c in s :: !IsLineBreak(c)
  }

  function LineLength(s: string): (n: nat)
    ensures n <= |s| && SingleLine(s[..n]) && (n < |s| ==> IsLineBreak(s[n]))
  {
    if s == "" || IsLineBreak(s[0]) then 0
    else
      assert s[..1 + LineLength(s[1..])] == [s[0]] + s[1..][..LineLength(s[1..])];
      1 + LineLength(s[1..])
  }

  /** `text.splitlines()`: a carriage return and line feed together end one line. */
  function SplitLines(text: string): seq<string>
    decreases |text|
  {
    if text == "" then []
    else
      var n := LineLength(text);
      if n == |text| then [text]
      else
        var width := if text[n] == '\r' && n + 1 < |text| && text[n + 1] == '\n' then 2 else 1;
        [text[..n]] + SplitLines(text[n + width..])
  }

  /** Where `partition(c)` cuts: the index of the first `c`, or the length when there is none. */
  function IndexOf(s: string, c: char): (n: nat)
    ensures n <= |s| && (n < |s| ==> s[n] == c) && c !in s[..n]
  {
    if s == "" || s[0] == c then 0
    else
      assert s[..1 + IndexOf(s[1..], c)] == [s[0]] + s[1..][..IndexOf(s[1..], c)];
      1 + IndexOf(s[1..], c)
  }

  /** Where `rpartition(c)` cuts: one past the last `c`, or zero when there is none. */
  function LastIndexOf(s: string, c: char): (n: nat)
    ensures n <= |s| && (n > 0 ==> s[n - 1] == c) && c !in s[n..]
  {
    if s == "" then 0
    else if s[|s| - 1] == c then |s|
    else
      assert s[LastIndexOf(s[..|s| - 1], c)..] == s[..|s| - 1][LastIndexOf(s[..|s| - 1], c)..] + [s[|s| - 1]];
      LastIndexOf(s[..|s| - 1], c)
  }

  // ---- Stanzas ----

  /** The stanzas yielded so far and the one being read. */
  datatype Reading = Reading(done: seq<Stanza>, current: Stanza)

  function ReadLine(r: Reading, line: string): Reading {
    if Strip(line) == "" then
      if r.current != map[] then Reading(r.done + [r.current], map[]) else r
    else if line[0] == ' ' || line[0] == '\t' then r
    else
      var n := IndexOf(line, ':');
      if n == |line| then r
      else Reading(r.done, r.current[Lower(Strip(line[..n])) := Strip(line[n + 1..])])
  }

  function ReadLines(r: Reading, lines: seq<string>): Reading
    decreases |lines|
  {
    if lines == [] then r else ReadLines(ReadLine(r, lines[0]), lines[1..])
  }

  function Finished(r: Reading): seq<Stanza> {
    if r.current != map[] then r.done + [r.current] else r.done
  }

  function Stanzas(text: string): seq<Stanza> {
    Finished(ReadLines(Reading([], map[]), SplitLines(text)))
  }

  lemma {:induction false} ReadMore(r: Reading, a: seq<string>, b: seq<string>)
    ensures ReadLines(r, a + b) == ReadLines(ReadLines(r, a), b)
    decreases |a|
  {
    hide ReadLine;
    if a == [] {
      assert a + b == b;
    } else {
      assert (a + b)[1..] == a[1..] + b;
      ReadMore(ReadLine(r, a[0]), a[1..], b);
    }
  }

  lemma ReadOne(r: Reading, line: string)
    ensures ReadLines(r, [line]) == ReadLine(r, line)
  {
    hide ReadLine;
    assert [line][1..] == [];
  }

  /** The loop of `_stanzas`. */
  method ParseStanzas(text: string) returns (stanzas: seq<Stanza>)
    ensures stanzas == Stanzas(text)
  {
    var lines := SplitLines(text);
    var current: Stanza := map[];
    stanzas := [];
    ghost var start := Reading([], map[]);
    for i := 0 to |lines|
      invariant Reading(stanzas, current) == ReadLines(start, lines[..i])
    {
      var line := lines[i];
      assert lines[..i + 1] == lines[..i] + [line];
      ReadMore(start, lines[..i], [line]);
      ReadOne(Reading(stanzas, current), line);
      hide ReadLines;
      if Strip(line) == "" {
        if current != map[] {
          stanzas := stanzas + [current];
          current := map[];
        }
        continue;
      }
      if line[0] == ' ' || line[0] == '\t' {
        continue;
      }
      var n := IndexOf(line, ':');
      if n < |line| {
        current := current[Lower(Strip(line[..n])) := Strip(line[n + 1..])];
      }
    }
    assert lines[..|lines|] == lines;
    if current != map[] {
      stanzas := stanzas + [current];
    }
  }

  // ---- Components ----

  /** Drops the packaging epoch and revision. */
  function UpstreamVersion(version: string): string {
    var bare := AfterEpoch(Strip(version));
    var dash := LastIndexOf(bare, '-');
    Strip(if dash > 1 then bare[..dash - 1] else bare)
  }

  lemma {:induction false} LastIndexOfDash(base: string, revision: string)
    requires '-' !in revision
    ensures LastIndexOf(base + "-" + revision, '-') == |base| + 1
  {
    var s := base + "-" + revision;
    if revision == "" {
      assert s == base + "-";
    } else {
      var shorter := revision[..|revision| - 1];
      LastIndexOfDash(base, shorter);
      assert s[|s| - 1] == revision[|revision| - 1] && s[|s| - 1] in revision;
      assert s[..|s| - 1] == base + "-" + shorter;
    }
  }

  lemma {:induction false} NoDash(s: string)
    requires '-' !in s
    ensures LastIndexOf(s, '-') == 0
  {
    if s != "" {
      NoDash(s[..|s| - 1]);
    }
  }

  /** The part of a trimmed version after its first colon, the whole version when that part is empty or there is none. */
  function AfterEpoch(version: string): string {
    var colon := IndexOf(version, ':');
    if colon + 1 < |version| then version[colon + 1..] else version
  }

  lemma EpochCut(epoch: string, rest: string)
    requires ':' !in epoch
    ensures rest != "" ==> AfterEpoch(epoch + ":" + rest) == rest
    ensures AfterEpoch(epoch + ":") == epoch + ":"
    ensures AfterEpoch(epoch) == epoch
  {
    IndexOfKey(epoch, rest);
    IndexOfKey(epoch, "");
    assert epoch + ":" + "" == epoch + ":";
    NoColon(epoch);
  }

  lemma {:induction false} NoColon(s: string)
    requires ':' !in s
    ensures IndexOf(s, ':') == |s|
  {
    if s != "" {
      NoColon(s[1..]);
    }
  }

  /** How a version loses its decoration: blanks around it; an epoch, unless nothing follows it; then a revision, from
      the last dash on, unless nothing precedes it. */
  lemma UpstreamExactly(version: string, base: string, revision: string)
    requires '-' !in revision
    ensures '-' !in AfterEpoch(Strip(version)) ==> UpstreamVersion(version) == Strip(AfterEpoch(Strip(version)))
    ensures base != "" && AfterEpoch(Strip(version)) == base + "-" + revision ==> UpstreamVersion(version) == Strip(base)
    ensures AfterEpoch(Strip(version)) == "-" + revision ==> UpstreamVersion(version) == Strip("-" + revision)
  {
    hide Strip, IndexOf, LastIndexOf;
    var bare := AfterEpoch(Strip(version));
    if '-' !in bare {
      NoDash(bare);
    }
    LastIndexOfDash(base, revision);
    LastIndexOfDash("", revision);
    assert "" + "-" + revision == "-" + revision;
    assert bare == base + "-" + revision ==> bare[..|base|] == base;
  }

  /** An epoch and a package revision are both stripped: `1:1.36.1-r1` is `1.36.1`. */
  lemma UpstreamStripsDecoration(epoch: string, base: string, revision: string)
    requires ':' !in epoch && '-' !in revision && base != "" && Trimmed(base)
    requires Trimmed(epoch + ":" + base + "-" + revision)
    ensures UpstreamVersion(epoch + ":" + base + "-" + revision) == base
  {
    var value := epoch + ":" + base + "-" + revision;
    hide Strip, IndexOf, LastIndexOf, Trimmed;
    TrimmedStrip(value);
    TrimmedStrip(base);
    var bare := base + "-" + revision;
    assert value == epoch + ":" + bare;
    IndexOfKey(epoch, bare);
    LastIndexOfDash(base, revision);
    assert value[|epoch| + 1..] == bare && bare[..|base|] == base;
  }

  const NOT_INSTALLED: seq<string> := ["not-installed", "deinstall", "config-files"]

  function Field(stanza: Stanza, name: string): string {
    if name in stanza then stanza[name] else ""
  }

  predicate Installed(stanza: Stanza) {
    && Strip(Field(stanza, "package")) != ""
    && Strip(Field(stanza, "version")) != ""
    && forall marker | marker in NOT_INSTALLED :: !Contains(Lower(Field(stanza, "status")), marker)
  }

  function ComponentOf(stanza: Stanza, detector: string, evidence: string): Component {
    var raw := Strip(Field(stanza, "version"));
    Component(Lower(Strip(Field(stanza, "package"))), UpstreamVersion(raw), "",
              Lower(Strip(Field(stanza, "section"))), evidence,
              map["detector" := Str(detector), "evidence" := Str(detector + ":" + evidence), "package_version" := Str(raw)])
  }

  function ComponentsIn(stanzas: seq<Stanza>, detector: string, evidence: string): seq<Component> {
    if stanzas == [] then []
    else
      var last := stanzas[|stanzas| - 1];
      ComponentsIn(stanzas[..|stanzas| - 1], detector, evidence) + if Installed(last) then [ComponentOf(last, detector, evidence)] else []
  }

  /** A stanza is left out exactly when it lacks a name or a version or its status, in any case, holds one of three
      markers; otherwise it gives one component, with its fields normalised and its packaged version kept. */
  lemma StanzaExactly(stanza: Stanza, detector: string, evidence: string)
    ensures var name, version, status := Field(stanza, "package"), Field(stanza, "version"), Lower(Field(stanza, "status"));
            var found := ComponentsIn([stanza], detector, evidence);
            if || Strip(name) == "" || Strip(version) == "" || Contains(status, "not-installed")
               || Contains(status, "deinstall") || Contains(status, "config-files")
            then found == []
            else
              && |found| == 1
              && found[0].name == Normal(name) && found[0].version == UpstreamVersion(Strip(version))
              && found[0].category == Normal(Field(stanza, "section")) && found[0].path == evidence && found[0].vendor == ""
              && found[0].ExtraText("detector") == detector && found[0].ExtraText("evidence") == detector + ":" + evidence
              && found[0].ExtraText("package_version") == Strip(version)
  {
    hide Contains, UpstreamVersion, Strip, Lower;
    assert [stanza][..0] == [];
    ThreeMarkers();
    DistinctExtras();
  }

  lemma ThreeMarkers()
    ensures forall marker :: marker in NOT_INSTALLED <==> marker == "not-installed" || marker == "deinstall" || marker == "config-files"
  {
  }

  lemma DistinctExtras()
    ensures "detector" != "evidence" && "detector" != "package_version" && "evidence" != "package_version"
  {
    assert "detector"[0] == 'd' && "evidence"[0] == 'e' && "package_version"[0] == 'p';
  }

  /** The filtering loop of `_components_from_status` over the text it read. */
  method ComponentsFromStatus(text: string, detector: string, evidence: string) returns (components: seq<Component>)
    ensures components == ComponentsIn(Stanzas(text), detector, evidence)
  {
    hide Installed, ComponentOf, Stanzas;
    var stanzas := ParseStanzas(text);
    components := [];
    for i := 0 to |stanzas|
      invariant components == ComponentsIn(stanzas[..i], detector, evidence)
    {
      assert stanzas[..i + 1][..i] == stanzas[..i];
      if !Installed(stanzas[i]) {
        continue;
      }
      components := components + [ComponentOf(stanzas[i], detector, evidence)];
    }
    assert stanzas[..|stanzas|] == stanzas;
  }

  // ---- The printed status file ----

  datatype Entry = Entry(name: string, version: string)

  /** Trimmed, nonempty, single-line names and versions. */
  predicate Printable(e: Entry) {
    && e.name != "" && Trimmed(e.name) && SingleLine(e.name)
    && e.version != "" && Trimmed(e.version) && SingleLine(e.version)
  }

  const STATUS := "install user installed"

  function PrintStanza(e: Entry): string {
    "Package: " + e.name + "\nVersion: " + e.version + "\nStatus: " + STATUS + "\n"
  }

  /** The stanzas joined with a line feed. */
  function PrintStatus(entries: seq<Entry>): string {
    if entries == [] then ""
    else if |entries| == 1 then PrintStanza(entries[0])
    else PrintStanza(entries[0]) + "\n" + PrintStatus(entries[1..])
  }

  function StanzaOf(e: Entry): Stanza {
    map["package" := e.name, "version" := e.version, "status" := STATUS]
  }

  function StanzasOf(entries: seq<Entry>): seq<Stanza> {
    if entries == [] then [] else [StanzaOf(entries[0])] + StanzasOf(entries[1..])
  }

  lemma {:induction false} LineThenRest(line: string, rest: string)
    requires SingleLine(line)
    ensures SplitLines(line + "\n" + rest) == [line] + SplitLines(rest)
  {
    var text := line + "\n" + rest;
    LineLengthOf(line, "\n" + rest);
    assert text == line + ("\n" + rest);
    assert text[..|line|] == line && text[|line| + 1..] == rest;
  }

  /** The line breaks by code, and what each of them does: it ends the line, a carriage return together with a line feed
      right after it. */
  lemma BreaksExactly(line: string, c: char, rest: string)
    requires SingleLine(line)
    ensures IsLineBreak(c) <==> c as int in {10, 11, 12, 13, 28, 29, 30}
    ensures IsLineBreak(c) && !(c == '\r' && rest != "" && rest[0] == '\n') ==>
              SplitLines(line + [c] + rest) == [line] + SplitLines(rest)
    ensures SplitLines(line + "\r\n" + rest) == [line] + SplitLines(rest)
    ensures line != "" ==> SplitLines(line) == [line]
  {
    LineLengthOf(line, "\r\n" + rest);
    var text := line + "\r\n" + rest;
    assert text == line + ("\r\n" + rest);
    assert text[..|line|] == line && text[|line| + 2..] == rest;
    if IsLineBreak(c) {
      LineLengthOf(line, [c] + rest);
      var one := line + [c] + rest;
      assert one == line + ([c] + rest);
      assert one[..|line|] == line && one[|line| + 1..] == rest;
    }
    WholeLine(line);
  }

  lemma {:induction false} WholeLine(line: string)
    requires SingleLine(line)
    ensures LineLength(line) == |line|
  {
    if line != "" {
      assert line[0] in line;
      WholeLine(line[1..]);
    }
  }

  /** Continuation lines and lines without a colon are passed over wherever they stand in a stanza. */
  lemma OtherLinesArePassedOver(r: Reading, before: seq<string>, line: string, after: seq<string>)
    requires Strip(line) != "" && (line[0] in " \t" || ':' !in line)
    ensures ReadLines(r, before + [line] + after) == ReadLines(r, before + after)
  {
    var middle := ReadLines(r, before);
    assert ':' !in line ==> IndexOf(line, ':') == |line|;
    assert ReadLine(middle, line) == middle;
    assert before + [line] + after == before + ([line] + after);
    ReadMore(r, before, [line] + after);
    ReadMore(middle, [line], after);
    ReadOne(middle, line);
    ReadMore(r, before, after);
  }

  lemma {:induction false} LineLengthOf(line: string, rest: string)
    requires SingleLine(line) && rest != "" && IsLineBreak(rest[0])
    ensures LineLength(line + rest) == |line|
  {
    if line == "" {
      assert line + rest == rest;
    } else {
      assert (line + rest)[1..] == line[1..] + rest;
      LineLengthOf(line[1..], rest);
    }
  }

  lemma SingleLineConcat(a: string, b: string)
    requires SingleLine(a) && SingleLine(b)
    ensures SingleLine(a + b)
  {
    hide IsLineBreak;
  }

  lemma LabelsAreSingleLine()
    ensures SingleLine("Package: ") && SingleLine("Version: ") && SingleLine("Status: ") && SingleLine(STATUS)
  {
  }

  lemma StanzaLines(e: Entry, rest: string)
    requires Printable(e)
    ensures SplitLines(PrintStanza(e) + rest) ==
            ["Package: " + e.name, "Version: " + e.version, "Status: " + STATUS] + SplitLines(rest)
  {
    hide SplitLines, IsLineBreak;
    LabelsAreSingleLine();
    SingleLineConcat("Package: ", e.name);
    SingleLineConcat("Version: ", e.version);
    SingleLineConcat("Status: ", STATUS);
    hide SingleLine;
    var a, b, c := "Package: " + e.name, "Version: " + e.version, "Status: " + STATUS;
    assert PrintStanza(e) + rest == a + "\n" + (b + "\n" + (c + "\n" + rest));
    LineThenRest(a, b + "\n" + (c + "\n" + rest));
    LineThenRest(b, c + "\n" + rest);
    LineThenRest(c, rest);
  }

  lemma IndexOfKey(key: string, value: string)
    requires ':' !in key
    ensures IndexOf(key + ":" + value, ':') == |key|
  {
    var s := key + ":" + value;
    assert s[|key|] == ':' && s[..|key|] == key;
    assert forall i :: 0 <= i < |key| ==> s[i] == s[..|key|][i] && s[i] in s[..|key|];
    assert forall n :: |key| < n <= |s| ==> s[|key|] == s[..n][|key|];
  }

  lemma FieldLine(key: string, value: string)
    requires key != "" && Trimmed(key) && ':' !in key && value != "" && Trimmed(value)
    ensures var line := key + ": " + value;
            && Strip(line) != "" && line[0] != ' ' && line[0] != '\t'
            && IndexOf(line, ':') == |key| < |line|
            && line[..|key|] == key && line[|key| + 1..] == " " + value
  {
    var line := key + ": " + value;
    assert line == key + ":" + (" " + value);
    IndexOfKey(key, " " + value);
    hide IndexOf;
    assert line[0] == key[0] && line[|line| - 1] == value[|value| - 1];
    TrimmedStrip(line);
  }

  /** A printed field is read back: the key in lower case, and the value whole, colons included. */
  lemma ReadField(r: Reading, key: string, value: string)
    requires key != "" && Trimmed(key) && ':' !in key && value != "" && Trimmed(value)
    ensures ReadLine(r, key + ": " + value) == Reading(r.done, r.current[Lower(key) := value])
  {
    hide Strip, IndexOf, Lower;
    FieldLine(key, value);
    assert " " + value + "" == " " + value;
    StripPadded(" ", value, "");
    TrimmedStrip(key);
  }

  lemma ReadThree(r: Reading, a: string, b: string, c: string)
    ensures ReadLines(r, [a, b, c]) == ReadLine(ReadLine(ReadLine(r, a), b), c)
  {
    hide ReadLine;
    assert [a, b, c] == [a] + [b] + [c];
    ReadMore(r, [a] + [b], [c]);
    ReadMore(r, [a], [b]);
    ReadOne(r, a);
    ReadOne(ReadLine(r, a), b);
    ReadOne(ReadLine(ReadLine(r, a), b), c);
  }

  lemma ReadStanza(r: Reading, e: Entry)
    requires Printable(e) && r.current == map[]
    ensures ReadLines(r, ["Package: " + e.name, "Version: " + e.version, "Status: " + STATUS]) == Reading(r.done, StanzaOf(e))
    ensures StanzaOf(e) != map[]
  {
    hide ReadLine, Strip, ReadLines;
    assert "package" in StanzaOf(e);
    LowerKeys();
    ReadField(r, "Package", e.name);
    var r1 := Reading(r.done, map["package" := e.name]);
    assert r.current["package" := e.name] == r1.current;
    ReadField(r1, "Version", e.version);
    var r2 := Reading(r.done, map["package" := e.name, "version" := e.version]);
    assert r1.current["version" := e.version] == r2.current;
    ReadField(r2, "Status", STATUS);
    assert r2.current["status" := STATUS] == StanzaOf(e);
    ReadThree(r, "Package: " + e.name, "Version: " + e.version, "Status: " + STATUS);
    assert "Package" + ": " == "Package: " && "Version" + ": " == "Version: " && "Status" + ": " == "Status: ";
  }

  lemma LowerKeys()
    ensures Lower("Package") == "package" && Lower("Version") == "version" && Lower("Status") == "status"
  {
  }

  lemma ReadBlank(r: Reading)
    requires r.current != map[]
    ensures ReadLine(r, "") == Reading(r.done + [r.current], map[])
  {
  }

  lemma ReadPrintedStanza(done: seq<Stanza>, e: Entry, rest: string)
    requires Printable(e)
    ensures ReadLines(Reading(done, map[]), SplitLines(PrintStanza(e) + "\n" + rest)) ==
            ReadLines(Reading(done + [StanzaOf(e)], map[]), SplitLines(rest))
  {
    hide ReadLine, SplitLines, Printable, PrintStanza, StanzaOf;
    var lines := ["Package: " + e.name, "Version: " + e.version, "Status: " + STATUS];
    var r, after := Reading(done, map[]), Reading(done, StanzaOf(e));
    ReadStanza(r, e);
    StanzaLines(e, "\n" + rest);
    LineThenRest("", rest);
    assert "" + "\n" + rest == "\n" + rest;
    assert PrintStanza(e) + "\n" + rest == PrintStanza(e) + ("\n" + rest);
    hide ReadLines;
    ReadMore(r, lines, [""] + SplitLines(rest));
    ReadMore(after, [""], SplitLines(rest));
    ReadOne(after, "");
    ReadBlank(after);
  }

  lemma ReadLastStanza(done: seq<Stanza>, e: Entry)
    requires Printable(e)
    ensures ReadLines(Reading(done, map[]), SplitLines(PrintStanza(e))) == Reading(done, StanzaOf(e)) && StanzaOf(e) != map[]
  {
    hide ReadLine, ReadLines, SplitLines, Printable, PrintStanza, StanzaOf;
    ReadStanza(Reading(done, map[]), e);
    StanzaLines(e, "");
    NoLines();
    assert PrintStanza(e) + "" == PrintStanza(e);
    var lines := ["Package: " + e.name, "Version: " + e.version, "Status: " + STATUS];
    assert lines + [] == lines;
  }

  lemma PrintedParts(entries: seq<Entry>)
    ensures entries == [] ==> PrintStatus(entries) == "" && StanzasOf(entries) == []
    ensures |entries| == 1 ==> PrintStatus(entries) == PrintStanza(entries[0]) && StanzasOf(entries) == [StanzaOf(entries[0])]
    ensures |entries| > 1 ==>
              PrintStatus(entries) == PrintStanza(entries[0]) + "\n" + PrintStatus(entries[1..]) &&
              StanzasOf(entries) == [StanzaOf(entries[0])] + StanzasOf(entries[1..])
  {
    hide PrintStanza, StanzaOf;
  }

  lemma {:induction false} ReadPrinted(done: seq<Stanza>, entries: seq<Entry>)
    requires forall e :: e in entries ==> Printable(e)
    ensures Finished(ReadLines(Reading(done, map[]), SplitLines(PrintStatus(entries)))) == done + StanzasOf(entries)
    decreases |entries|
  {
    hide SplitLines, Printable, PrintStanza, StanzaOf, ReadLines, PrintStatus, StanzasOf;
    PrintedParts(entries);
    if entries == [] {
      NoLines();
      ReadNothing(Reading(done, map[]));
      assert done + [] == done;
    } else if |entries| == 1 {
      ReadLastStanza(done, entries[0]);
    } else {
      var first := StanzaOf(entries[0]);
      ReadPrintedStanza(done, entries[0], PrintStatus(entries[1..]));
      ReadPrinted(done + [first], entries[1..]);
      assert done + [first] + StanzasOf(entries[1..]) == done + StanzasOf(entries);
    }
  }

  lemma ReadNothing(r: Reading)
    ensures ReadLines(r, []) == r
  {
  }

  lemma NoLines()
    ensures SplitLines("") == []
  {
  }

  /** Round trip: the printed status file parses back to the same entries, in order, one stanza each. */
  lemma StatusRoundTrip(entries: seq<Entry>)
    requires forall e :: e in entries ==> Printable(e)
    ensures Stanzas(PrintStatus(entries)) == StanzasOf(entries)
  {
    ReadPrinted([], entries);
    assert [] + StanzasOf(entries) == StanzasOf(entries);
  }

  // ---- The components read from a printed status file ----

  lemma StatusIsInstalled()
    ensures Lower(STATUS) == STATUS
    ensures forall marker :: marker in NOT_INSTALLED ==> !Contains(STATUS, marker)
  {
    hide Contains;
    assert forall i :: 0 <= i < |STATUS| ==> STATUS[i] != '-' && (STATUS[i] == 'd' ==> i == 21);
    NowhereIn(STATUS, "not-installed", 3);
    NowhereIn(STATUS, "deinstall", 0);
    NowhereIn(STATUS, "config-files", 6);
  }

  /** The components expected for a list of entries: one each, in order. */
  function Expected(entries: seq<Entry>, detector: string, evidence: string): seq<Component> {
    if entries == [] then []
    else
      var e := entries[0];
      [Component(Lower(e.name), UpstreamVersion(e.version), "", "", evidence,
                 map["detector" := Str(detector), "evidence" := Str(detector + ":" + evidence), "package_version" := Str(e.version)])]
      + Expected(entries[1..], detector, evidence)
  }

  lemma {:induction false} ComponentsMore(a: seq<Stanza>, b: seq<Stanza>, detector: string, evidence: string)
    ensures ComponentsIn(a + b, detector, evidence) == ComponentsIn(a, detector, evidence) + ComponentsIn(b, detector, evidence)
  {
    hide Installed, ComponentOf;
    if b == [] {
      assert a + b == a;
    } else {
      assert (a + b)[..|a + b| - 1] == a + b[..|b| - 1];
      ComponentsMore(a, b[..|b| - 1], detector, evidence);
    }
  }

  lemma PrintedIsInstalled(e: Entry, detector: string, evidence: string)
    requires Printable(e)
    ensures Installed(StanzaOf(e))
    ensures [ComponentOf(StanzaOf(e), detector, evidence)] == Expected([e], detector, evidence)
  {
    hide Contains, UpstreamVersion;
    StatusIsInstalled();
    TrimmedStrip(e.name);
    TrimmedStrip(e.version);
    hide Strip;
    TrimmedStrip("");
    assert Lower("") == "";
    assert [e][1..] == [];
  }

  /** Every printed entry is detected again: the status filter drops none. */
  lemma {:induction false} ComponentsRoundTrip(entries: seq<Entry>, detector: string, evidence: string)
    requires forall e :: e in entries ==> Printable(e)
    ensures ComponentsIn(Stanzas(PrintStatus(entries)), detector, evidence) == Expected(entries, detector, evidence)
  {
    StatusRoundTrip(entries);
    hide Stanzas, PrintStatus;
    PrintedComponents(entries, detector, evidence);
  }

  lemma ComponentsCons(first: Stanza, rest: seq<Stanza>, detector: string, evidence: string)
    requires Installed(first)
    ensures ComponentsIn([first] + rest, detector, evidence) ==
            [ComponentOf(first, detector, evidence)] + ComponentsIn(rest, detector, evidence)
  {
    hide Installed, ComponentOf;
    ComponentsMore([first], rest, detector, evidence);
    assert [first][..0] == [];
  }

  lemma ExpectedCons(entries: seq<Entry>, detector: string, evidence: string)
    requires entries != []
    ensures Expected(entries, detector, evidence) == Expected([entries[0]], detector, evidence) + Expected(entries[1..], detector, evidence)
  {
    hide UpstreamVersion, Lower;
    assert [entries[0]][1..] == [];
  }

  lemma {:induction false} PrintedComponents(entries: seq<Entry>, detector: string, evidence: string)
    requires forall e :: e in entries ==> Printable(e)
    ensures ComponentsIn(StanzasOf(entries), detector, evidence) == Expected(entries, detector, evidence)
  {
    if entries != [] {
      hide Installed, ComponentOf, StanzaOf, Printable, Expected, ComponentsIn;
      PrintedComponents(entries[1..], detector, evidence);
      PrintedIsInstalled(entries[0], detector, evidence);
      ComponentsCons(StanzaOf(entries[0]), StanzasOf(entries[1..]), detector, evidence);
      ExpectedCons(entries, detector, evidence);
    }
  }
}
