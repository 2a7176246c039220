/** The text of a dictionary, as `iniparser_dump_ini` writes it and `iniparser_new` reads it. */
module IniText {
  import opened Options
  import opened IniDictionary

  type Contents = map<string, Option<string>>

  // ---- sscanf ----

  predicate IsSpace(c: char) {
    c == ' ' || 9 <= c as int <= 13
  }

  function SkipSpace(s: string): (t: string)
    ensures |t| <= |s|
  {
    if s != [] && IsSpace(s[0]) then SkipSpace(s[1..]) else s
  }

  /** The length `%[^...]` matches. */
  function RunLen(s: string, stops: set<char>): (n: nat)
    ensures n <= |s|
  {
    if s == [] || s[0] in stops then 0 else 1 + RunLen(s[1..], stops)
  }

  datatype Pair = Pair(key: string, val: string)

  /** `"[%[^]]"` */
  function ScanSection(s: string): Option<string> {
    if s == [] || s[0] != '[' || RunLen(s[1..], {']'}) == 0 then None else Some(s[1..1 + RunLen(s[1..], {']'})])
  }

  /** The rest of `"%[^=] = ..."` behind the key: past the equals sign and blanks. */
  function AfterEquals(s: string): Option<string> {
    var t := SkipSpace(s);
    if t == [] || t[0] != '=' then None else Some(SkipSpace(t[1..]))
  }

  /** `"%[^=] = %[^;#]"`, and with a quote character the two quoted forms. */
  function ScanEntry(s: string, quote: Option<char>): Option<Pair> {
    var k := RunLen(s, {'='});
    match AfterEquals(s[k..])
    case None => None
    case Some(t) =>
      if k == 0 then None
      else if quote == None then
        (if RunLen(t, {';', '#'}) == 0 then None else Some(Pair(s[..k], t[..RunLen(t, {';', '#'})])))
      else if t == [] || t[0] != quote.value || RunLen(t[1..], {quote.value}) == 0 then None
      else Some(Pair(s[..k], t[1..1 + RunLen(t[1..], {quote.value})]))
  }

  function Lower(s: string): (t: string)
    ensures |t| == |s|
  {
    seq(|s|, i requires 0 <= i < |s| => if 'A' <= s[i] <= 'Z' then (s[i] as int + 32) as char else s[i])
  }

  /** `strcrop` */
  function Crop(s: string): string {
    if s != [] && IsSpace(s[|s| - 1]) then Crop(s[..|s| - 1]) else s
  }

  // ---- Parsing ----

  datatype Line = Ignored | SectionLine(name: string) | EntryLine(key: string, val: string)

  function EntryOf(p: Pair): Line {
    EntryLine(Lower(Crop(p.key)), if p.val == "\"\"" || p.val == "''" then "" else Crop(p.val))
  }

  function ParseLine(line: string): Line {
    var s := SkipSpace(line);
    if s == [] || s[0] == ';' || s[0] == '#' then Ignored
    else
      match ScanSection(s)
      case Some(name) => SectionLine(Lower(name))
      case None =>
        match ScanEntry(s, Some('"'))
        case Some(p) => EntryOf(p)
        case None =>
          match ScanEntry(s, Some('\''))
          case Some(p) => EntryOf(p)
          case None =>
            match ScanEntry(s, None)
            case Some(p) => EntryOf(p)
            case None => Ignored
  }

  const MAX_LINE := 1023

  /** How much `fgets` takes: through the next line end, but not more than its buffer. */
  function LineLen(text: string): (n: nat)
    ensures n <= |text| && (text != [] ==> n > 0)
  {
    var k := RunLen(text, {'\n'});
    if k < |text| && k < MAX_LINE then k + 1 else if |text| < MAX_LINE then |text| else MAX_LINE
  }

  /** The loop of `iniparser_new` over the rest of the text, in section `sec`. */
  function Parsed(text: string, sec: string, m: Contents): Contents
    decreases |text|
  {
    if text == [] then m
    else
      var n := LineLen(text);
      match ParseLine(text[..n])
      case Ignored => Parsed(text[n..], sec, m)
      case SectionLine(name) => Parsed(text[n..], name, m[name := None])
      case EntryLine(key, val) => Parsed(text[n..], sec, m[sec + ":" + key := Some(val)])
  }

  // ---- Dumping ----

  predicate IsSection(key: string) {
    ':' !in key
  }

  /** The section names in the order of their slots. */
  function Sections(keys: Slots): (s: seq<string>) {
    if keys == [] then []
    else Sections(keys[..|keys| - 1]) +
         if keys[|keys| - 1].Some? && IsSection(keys[|keys| - 1].value) then [keys[|keys| - 1].value] else []
  }

  /** `"%-30s"` */
  function Pad(s: string): (t: string)
    ensures |t| >= 30 && s <= t
  {
    if |s| >= 30 then s else s + Blank(30 - |s|, ' ')
  }

  function EntryText(name: string, val: string): string {
    Pad(name) + " = " + val + "\n"
  }

  /** The entries of one section, from slot `j` on. */
  function EntriesText(keys: Slots, vals: Slots, sec: string, j: nat): string
    requires |keys| == |vals| && j <= |keys|
    decreases |keys| - j
  {
    if j == |keys| then ""
    else if keys[j].Some? && sec + ":" <= keys[j].value then
      EntryText(keys[j].value[|sec| + 1..], if vals[j].Some? then vals[j].value else "")
      + EntriesText(keys, vals, sec, j + 1)
    else EntriesText(keys, vals, sec, j + 1)
  }

  function SectionsText(keys: Slots, vals: Slots, secs: seq<string>): string
    requires |keys| == |vals|
    decreases |secs|
  {
    if secs == [] then "\n"
    else "\n" + ("[" + secs[0] + "]\n") + EntriesText(keys, vals, secs[0], 0) + SectionsText(keys, vals, secs[1..])
  }

  /** Without sections all keys are printed as they are. */
  function PlainText(keys: Slots, vals: Slots, j: nat): string
    requires |keys| == |vals| && j <= |keys|
    decreases |keys| - j
  {
    if j == |keys| then ""
    else if keys[j] == None then PlainText(keys, vals, j + 1)
    else
      keys[j].value + " = " + (if vals[j].Some? then vals[j].value else "(null)") + "\n"
      + PlainText(keys, vals, j + 1)
  }

  function Dumped(keys: Slots, vals: Slots): string
    requires |keys| == |vals|
  {
    if Sections(keys) == [] then PlainText(keys, vals, 0) else SectionsText(keys, vals, Sections(keys))
  }

  // ---- What survives ----

  predicate LowerCase(s: string) {
    forall i :: 0 <= i < |s| ==> !('A' <= s[i] <= 'Z')
  }

  predicate Trimmed(s: string) {
    s != [] && !IsSpace(s[0]) && !IsSpace(s[|s| - 1]) && '\n' !in s
  }

  predicate GoodSection(s: string) {
    s != [] && LowerCase(s) && ':' !in s && ']' !in s && '\n' !in s && |s| + 3 <= MAX_LINE
  }

  predicate GoodName(s: string) {
    Trimmed(s) && LowerCase(s) && '=' !in s && s[0] != ';' && s[0] != '#' && s[0] != '['
  }

  predicate GoodValue(s: string) {
    Trimmed(s) && ';' !in s && '#' !in s && s[0] != '"' && s[0] != '\''
  }

  /** A key of a section that is there, with a name and a value that fit on a line. */
  ghost predicate GoodEntry(m: Contents, sec: string, key: string) {
    && key in m && sec + ":" <= key && m[key].Some?
    && GoodName(key[|sec| + 1..]) && GoodValue(m[key].value)
    && |EntryText(key[|sec| + 1..], m[key].value)| <= MAX_LINE
  }

  /** Sections have no value, every other key belongs to a section of the dictionary. */
  ghost predicate WellFormed(m: Contents) {
    forall key :: key in m ==>
      if IsSection(key) then GoodSection(key) && m[key] == None
      else exists sec :: sec in m && IsSection(sec) && GoodEntry(m, sec, key)
  }

  // ---- Scanning what was printed ----

  lemma {:induction false} RunWhole(s: string, t: string, stops: set<char>)
    requires forall i :: 0 <= i < |s| ==> s[i] !in stops
    ensures RunLen(s + t, stops) == |s| + RunLen(t, stops)
  {
    if s == [] {
      assert s + t == t;
    } else {
      RunWhole(s[1..], t, stops);
      assert (s + t)[1..] == s[1..] + t;
    }
  }

  lemma {:induction false} CropSpaces(s: string, t: string)
    requires s != [] && !IsSpace(s[|s| - 1]) && forall i :: 0 <= i < |t| ==> IsSpace(t[i])
    ensures Crop(s + t) == s
  {
    if t == [] {
      assert s + t == s;
    } else {
      CropSpaces(s, t[..|t| - 1]);
      assert (s + t)[..|s + t| - 1] == s + t[..|t| - 1];
    }
  }

  lemma LowerSame(s: string)
    requires LowerCase(s)
    ensures Lower(s) == s
  {
  }

  lemma SkipNothing(s: string)
    requires s != [] && !IsSpace(s[0])
    ensures SkipSpace(s) == s
  {
  }

  lemma SkipOne(s: string)
    requires s != [] && !IsSpace(s[0])
    ensures SkipSpace(" " + s) == s
  {
    assert (" " + s)[1..] == s;
  }

  lemma SectionParses(sec: string)
    requires GoodSection(sec)
    ensures ParseLine("[" + sec + "]\n") == SectionLine(sec)
  {
    hide RunLen, Lower;
    var line := "[" + sec + "]\n";
    SkipNothing(line);
    assert line[1..] == sec + "]\n";
    RunWhole(sec, "]\n", {']'});
    assert RunLen("]\n", {']'}) == 0 by { StopsAtOnce("]\n", {']'}); }
    assert line[1..1 + |sec|] == sec;
    LowerSame(sec);
  }

  lemma StopsAtOnce(s: string, stops: set<char>)
    ensures s == [] || s[0] in stops ==> RunLen(s, stops) == 0
  {
  }

  lemma BlankParses()
    ensures ParseLine("\n") == Ignored
  {
    assert "\n"[1..] == [];
    assert SkipSpace([]) == [];
  }

  /** Behind a printed key comes the printed value. */
  lemma EqualsParses(val: string)
    requires GoodValue(val)
    ensures AfterEquals("= " + val + "\n") == Some(val + "\n")
  {
    var t := "= " + val + "\n";
    SkipNothing(t);
    assert t[1..] == " " + (val + "\n");
    SkipOne(val + "\n");
  }

  lemma EntryScans(name: string, val: string, quote: Option<char>)
    requires GoodName(name) && GoodValue(val) && (quote == None || quote == Some('"') || quote == Some('\''))
    ensures ScanEntry(EntryText(name, val), quote)
         == if quote == None then Some(Pair(Pad(name) + " ", val + "\n")) else None
  {
    hide RunLen, AfterEquals, Pad, IsSpace;
    var line := EntryText(name, val);
    var key := Pad(name) + " ";
    assert line == key + ("= " + val + "\n");
    PadFree(name);
    RunWhole(key, "= " + val + "\n", {'='});
    StopsAtOnce("= " + val + "\n", {'='});
    assert line[|key|..] == "= " + val + "\n" && line[..|key|] == key;
    EqualsParses(val);
    assert val + "\n" == (val + "\n") + [];
    RunWhole(val + "\n", [], {';', '#'});
    StopsAtOnce([], {';', '#'});
    assert (val + "\n")[..|val| + 1] == val + "\n";
  }

  lemma PadFree(name: string)
    requires '=' !in name
    ensures forall i :: 0 <= i < |Pad(name) + " "| ==> (Pad(name) + " ")[i] !in {'='}
  {
  }

  lemma PadCrops(name: string)
    requires Trimmed(name)
    ensures Crop(Pad(name) + " ") == name
  {
    if |name| >= 30 {
      CropSpaces(name, " ");
    } else {
      var t := Blank(30 - |name|, ' ') + " ";
      assert Pad(name) + " " == name + t;
      CropSpaces(name, t);
    }
  }

  lemma EntryParses(name: string, val: string)
    requires GoodName(name) && GoodValue(val)
    ensures ParseLine(EntryText(name, val)) == EntryLine(name, val)
  {
    hide RunLen, AfterEquals, Pad, Crop, Lower, ScanEntry, SkipSpace;
    var line := EntryText(name, val);
    EntryBegins(name, val);
    SkipNothing(line);
    EntryScans(name, val, Some('"'));
    EntryScans(name, val, Some('\''));
    EntryScans(name, val, None);
    PadCrops(name);
    CropSpaces(val, "\n");
    LowerSame(name);
    ValueIsNotEmptyQuotes(val);
  }

  lemma EntryBegins(name: string, val: string)
    requires GoodName(name)
    ensures EntryText(name, val) != [] && EntryText(name, val)[0] == name[0]
  {
  }

  lemma ValueIsNotEmptyQuotes(val: string)
    ensures val + "\n" != "\"\"" && val + "\n" != "''"
  {
    assert (val + "\n")[|val|] == '\n';
  }

  // ---- Reading back line by line ----

  /** A printed line is read as a whole. */
  lemma OneLine(body: string, rest: string, sec: string, m: Contents)
    requires '\n' !in body && |body| + 1 <= MAX_LINE
    ensures Parsed(body + "\n" + rest, sec, m)
         == match ParseLine(body + "\n")
            case Ignored => Parsed(rest, sec, m)
            case SectionLine(name) => Parsed(rest, name, m[name := None])
            case EntryLine(key, val) => Parsed(rest, sec, m[sec + ":" + key := Some(val)])
  {
    hide ParseLine, RunLen;
    var text := body + "\n" + rest;
    assert text == body + ("\n" + rest);
    RunWhole(body, "\n" + rest, {'\n'});
    StopsAtOnce("\n" + rest, {'\n'});
    assert LineLen(text) == |body| + 1;
    assert text[..|body| + 1] == body + "\n" && text[|body| + 1..] == rest;
  }

  /** The dictionary after the entries of `sec` from slot `j` on have been read. */
  ghost function WithEntries(keys: Slots, vals: Slots, sec: string, j: nat, m: Contents): Contents
    requires |keys| == |vals| && j <= |keys|
    decreases |keys| - j
  {
    if j == |keys| then m
    else if keys[j].Some? && sec + ":" <= keys[j].value then
      WithEntries(keys, vals, sec, j + 1, m[keys[j].value := vals[j]])
    else WithEntries(keys, vals, sec, j + 1, m)
  }

  /** The keys with this section in front are good entries. */
  ghost predicate GoodEntries(keys: Slots, vals: Slots, sec: string, all: Contents) {
    && |keys| == |vals|
    && forall j :: 0 <= j < |keys| && keys[j].Some? && sec + ":" <= keys[j].value ==>
         GoodEntry(all, sec, keys[j].value) && all[keys[j].value] == vals[j]
  }

  lemma {:induction false} EntriesParse(keys: Slots, vals: Slots, sec: string, j: nat, rest: string, m: Contents,
      all: Contents)
    requires GoodEntries(keys, vals, sec, all) && j <= |keys|
    ensures Parsed(EntriesText(keys, vals, sec, j) + rest, sec, m)
      == Parsed(rest, sec, WithEntries(keys, vals, sec, j, m))
    decreases |keys| - j
  {
    hide Parsed, EntryText, GoodName, GoodValue;
    if j == |keys| {
      assert "" + rest == rest;
    } else if keys[j].Some? && sec + ":" <= keys[j].value {
      var key := keys[j].value;
      assert GoodEntry(all, sec, key) && all[key] == vals[j];
      var name, val := key[|sec| + 1..], vals[j].value;
      var tail := EntriesText(keys, vals, sec, j + 1) + rest;
      assert EntriesText(keys, vals, sec, j) + rest == EntryText(name, val) + tail;
      EntryLineParses(name, val, tail, sec, m);
      assert sec + ":" + name == key;
      EntriesParse(keys, vals, sec, j + 1, rest, m[key := vals[j]], all);
    } else {
      EntriesParse(keys, vals, sec, j + 1, rest, m, all);
    }
  }

  lemma EntryLineParses(name: string, val: string, tail: string, sec: string, m: Contents)
    requires GoodName(name) && GoodValue(val) && |EntryText(name, val)| <= MAX_LINE
    ensures Parsed(EntryText(name, val) + tail, sec, m) == Parsed(tail, sec, m[sec + ":" + name := Some(val)])
  {
    hide Parsed, ParseLine, Pad;
    EntryParses(name, val);
    var body := Pad(name) + " = " + val;
    BodyIsOneLine(name, val);
    assert EntryText(name, val) == body + "\n";
    OneLine(body, tail, sec, m);
  }

  lemma BodyIsOneLine(name: string, val: string)
    requires '\n' !in name && '\n' !in val
    ensures '\n' !in Pad(name) + " = " + val
  {
  }

  ghost function WithSections(keys: Slots, vals: Slots, secs: seq<string>, m: Contents): Contents
    requires |keys| == |vals|
    decreases |secs|
  {
    if secs == [] then m
    else WithSections(keys, vals, secs[1..], WithEntries(keys, vals, secs[0], 0, m[secs[0] := None]))
  }

  ghost predicate GoodSections(keys: Slots, vals: Slots, secs: seq<string>, all: Contents) {
    forall i :: 0 <= i < |secs| ==> GoodSection(secs[i]) && GoodEntries(keys, vals, secs[i], all)
  }

  lemma {:induction false} SectionsParse(keys: Slots, vals: Slots, secs: seq<string>, sec: string, m: Contents,
      all: Contents)
    requires |keys| == |vals| && GoodSections(keys, vals, secs, all)
    ensures Parsed(SectionsText(keys, vals, secs), sec, m) == WithSections(keys, vals, secs, m)
    decreases |secs|
  {
    hide Parsed, GoodSection, GoodEntries, EntriesText, WithEntries;
    if secs == [] {
      assert "\n" == "" + "\n" + "";
      OneLine("", "", sec, m);
      BlankParses();
      NothingParsed(sec, m);
    } else {
      var entries, later := EntriesText(keys, vals, secs[0], 0), SectionsText(keys, vals, secs[1..]);
      var head := "[" + secs[0] + "]\n";
      assert GoodSection(secs[0]) && GoodEntries(keys, vals, secs[0], all);
      assert SectionsText(keys, vals, secs) == "\n" + (head + (entries + later));
      SectionHeadParses(secs[0], entries + later, sec, m);
      EntriesParse(keys, vals, secs[0], 0, later, m[secs[0] := None], all);
      SectionsParse(keys, vals, secs[1..], secs[0], WithEntries(keys, vals, secs[0], 0, m[secs[0] := None]), all);
    }
  }

  lemma NothingParsed(sec: string, m: Contents)
    ensures Parsed("", sec, m) == m
  {
  }

  lemma SectionHeadParses(name: string, rest: string, sec: string, m: Contents)
    requires GoodSection(name)
    ensures Parsed("\n" + ("[" + name + "]\n" + rest), sec, m) == Parsed(rest, name, m[name := None])
  {
    hide Parsed, ParseLine;
    var line := "[" + name + "]\n" + rest;
    assert "\n" + line == "" + "\n" + line;
    OneLine("", line, sec, m);
    BlankParses();
    assert "" + "\n" == "\n";
    var body := "[" + name + "]";
    assert body + "\n" == "[" + name + "]\n";
    assert line == body + "\n" + rest;
    OneLine(body, rest, sec, m);
    SectionParses(name);
  }

  // ---- The same dictionary ----

  ghost predicate Within(a: Contents, b: Contents) {
    forall k :: k in a ==> k in b && a[k] == b[k]
  }

  lemma SlotHolds(keys: Slots, vals: Slots, all: Contents, j: nat)
    requires Holds(keys, vals, all) && j < |keys| && keys[j].Some?
    ensures keys[j].value in all && all[keys[j].value] == vals[j]
  {
  }

  lemma {:induction false} EntriesWithin(keys: Slots, vals: Slots, sec: string, j: nat, m: Contents, all: Contents)
    requires |keys| == |vals| && Holds(keys, vals, all) && j <= |keys| && Within(m, all)
    ensures var r := WithEntries(keys, vals, sec, j, m);
      && Within(m, r) && Within(r, all)
      && forall i :: j <= i < |keys| && keys[i].Some? && sec + ":" <= keys[i].value ==> keys[i].value in r
    decreases |keys| - j
  {
    hide Holds;
    if j < |keys| {
      if keys[j].Some? && sec + ":" <= keys[j].value {
        SlotHolds(keys, vals, all, j);
        EntriesWithin(keys, vals, sec, j + 1, m[keys[j].value := vals[j]], all);
      } else {
        EntriesWithin(keys, vals, sec, j + 1, m, all);
      }
    }
  }

  lemma {:induction false} SectionsWithin(keys: Slots, vals: Slots, secs: seq<string>, m: Contents, all: Contents)
    requires |keys| == |vals| && Holds(keys, vals, all) && Within(m, all)
    requires forall i :: 0 <= i < |secs| ==> secs[i] in all && all[secs[i]] == None
    ensures var r := WithSections(keys, vals, secs, m);
      && Within(m, r) && Within(r, all)
      && (forall i :: 0 <= i < |secs| ==> secs[i] in r)
      && forall i, j :: 0 <= i < |secs| && 0 <= j < |keys| && keys[j].Some? && secs[i] + ":" <= keys[j].value ==>
           keys[j].value in r
    decreases |secs|
  {
    hide WithEntries, Holds;
    if secs != [] {
      var m1 := m[secs[0] := None];
      EntriesWithin(keys, vals, secs[0], 0, m1, all);
      var m2 := WithEntries(keys, vals, secs[0], 0, m1);
      SectionsWithin(keys, vals, secs[1..], m2, all);
      var r := WithSections(keys, vals, secs[1..], m2);
      assert secs[0] in m1 && secs[0] in r;
      forall i, j | 0 <= i < |secs| && 0 <= j < |keys| && keys[j].Some? && secs[i] + ":" <= keys[j].value
        ensures keys[j].value in r
      {
        if i > 0 {
          assert secs[i] == secs[1..][i - 1];
        }
      }
      forall i | 0 <= i < |secs|
        ensures secs[i] in r
      {
        if i > 0 {
          assert secs[i] == secs[1..][i - 1];
        }
      }
    }
  }

  lemma {:induction false} SectionsAre(keys: Slots, k: string)
    ensures k in Sections(keys) <==> Some(k) in keys && IsSection(k)
  {
    if keys != [] {
      SectionsAre(keys[..|keys| - 1], k);
      assert keys == keys[..|keys| - 1] + [keys[|keys| - 1]];
    }
  }

  /** The section a key belongs to is the part before its first colon. */
  lemma FirstColon(sec: string, key: string)
    requires ':' !in sec && sec + ":" <= key
    ensures |sec| < |key| && key[|sec|] == ':' && key[..|sec|] == sec && forall i :: 0 <= i < |sec| ==> key[i] != ':'
  {
    assert (sec + ":")[|sec|] == ':';
    assert forall i :: 0 <= i < |sec| ==> key[i] == sec[i];
  }

  lemma SameSection(sec: string, sec': string, key: string)
    requires ':' !in sec && ':' !in sec' && sec + ":" <= key && sec' + ":" <= key
    ensures sec == sec'
  {
    FirstColon(sec, key);
    FirstColon(sec', key);
  }

  lemma EntriesAreGood(keys: Slots, vals: Slots, m: Contents, sec: string)
    requires Holds(keys, vals, m) && WellFormed(m) && IsSection(sec)
    ensures GoodEntries(keys, vals, sec, m)
  {
    hide GoodName, GoodValue, EntryText;
    forall j | 0 <= j < |keys| && keys[j].Some? && sec + ":" <= keys[j].value
      ensures GoodEntry(m, sec, keys[j].value) && m[keys[j].value] == vals[j]
    {
      var key := keys[j].value;
      assert key[|sec|] == ':';
      var sec' :| sec' in m && IsSection(sec') && GoodEntry(m, sec', key);
      SameSection(sec, sec', key);
    }
  }

  /** Parsing the dump of a well-formed dictionary gives the same dictionary. */
  lemma DumpRoundTrip(keys: Slots, vals: Slots, m: Contents)
    requires Holds(keys, vals, m) && WellFormed(m)
    ensures Parsed(Dumped(keys, vals), "", map[]) == m
  {
    hide Parsed, SectionsText, PlainText, GoodEntries, GoodEntry, GoodSection;
    var secs := Sections(keys);
    forall i | 0 <= i < |secs|
      ensures secs[i] in m && m[secs[i]] == None && GoodSection(secs[i]) && GoodEntries(keys, vals, secs[i], m)
    {
      SectionsAre(keys, secs[i]);
      EntriesAreGood(keys, vals, m, secs[i]);
    }
    if secs == [] {
      NoKeys(keys, vals, m);
      NoText(keys, vals, 0);
      NothingParsed("", map[]);
    } else {
      SectionsParse(keys, vals, secs, "", map[], m);
      SectionsWithin(keys, vals, secs, map[], m);
      var r := WithSections(keys, vals, secs, map[]);
      forall k | k in m
        ensures k in r
      {
        AllCovered(keys, vals, m, secs, r, k);
      }
      assert r == m;
    }
  }

  lemma AllCovered(keys: Slots, vals: Slots, m: Contents, secs: seq<string>, r: Contents, k: string)
    requires Holds(keys, vals, m) && WellFormed(m) && secs == Sections(keys) && k in m
    requires forall i :: 0 <= i < |secs| ==> secs[i] in r
    requires forall i, j :: 0 <= i < |secs| && 0 <= j < |keys| && keys[j].Some? && secs[i] + ":" <= keys[j].value ==>
      keys[j].value in r
    ensures k in r
  {
    hide Sections, GoodName, GoodValue, EntryText;
    SectionsAre(keys, k);
    if !IsSection(k) {
      var sec :| sec in m && IsSection(sec) && GoodEntry(m, sec, k);
      SectionsAre(keys, sec);
      var i :| 0 <= i < |secs| && secs[i] == sec;
      var j :| 0 <= j < |keys| && keys[j] == Some(k);
    }
  }

  /** A well-formed dictionary without sections is empty. */
  lemma NoKeys(keys: Slots, vals: Slots, m: Contents)
    requires Holds(keys, vals, m) && WellFormed(m) && Sections(keys) == []
    ensures m == map[] && forall j :: 0 <= j < |keys| ==> keys[j] == None
  {
    hide Sections, GoodName, GoodValue, EntryText;
    forall k
      ensures k !in m
    {
      SectionsAre(keys, k);
      if k in m && !IsSection(k) {
        var sec :| sec in m && IsSection(sec) && GoodEntry(m, sec, k);
        SectionsAre(keys, sec);
      }
    }
  }

  lemma {:induction false} NoText(keys: Slots, vals: Slots, j: nat)
    requires |keys| == |vals| && j <= |keys| && forall i :: 0 <= i < |keys| ==> keys[i] == None
    ensures PlainText(keys, vals, j) == ""
    decreases |keys| - j
  {
    if j < |keys| {
      NoText(keys, vals, j + 1);
    }
  }
}
