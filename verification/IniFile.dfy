/** The loops over a dictionary's slots and over a file's lines. */
module IniFile {
  import opened Options
  import opened IniDictionary
  import opened IniText

  /** A name without a colon is a section, and comes last in the list so far. */
  lemma SectionsNext(keys: Slots, i: nat)
    requires i < |keys|
    ensures Sections(keys[..i + 1])
         == Sections(keys[..i]) + if keys[i].Some? && IsSection(keys[i].value) then [keys[i].value] else []
  {
    assert keys[..i + 1][..i] == keys[..i];
  }

  lemma {:induction false} SectionsGrow(keys: Slots, i: nat, j: nat)
    requires i <= j <= |keys|
    ensures Sections(keys[..i]) <= Sections(keys[..j])
    decreases j
  {
    if i < j {
      SectionsGrow(keys, i, j - 1);
      SectionsNext(keys, j - 1);
    }
  }

  /** `iniparser_getnsec` */
  method GetNSec(d: Dictionary) returns (nsec: nat)
    requires d.Valid()
    ensures nsec == |Sections(d.key[..])|
  {
    nsec := 0;
    var i := 0;
    while i < d.size
      invariant 0 <= i <= d.size && nsec == |Sections(d.key[..i])|
    {
      SectionsNext(d.key[..], i);
      assert d.key[..][..i] == d.key[..i] && d.key[..][..i + 1] == d.key[..i + 1];
      if d.key[i] != None {
        if ':' !in d.key[i].value {
          nsec := nsec + 1;
        }
      }
      i := i + 1;
    }
    assert d.key[..i] == d.key[..];
  }

  /** `iniparser_getsecname` */
  method GetSecName(d: Dictionary, n: nat) returns (name: Option<string>)
    requires d.Valid()
    ensures name == if n < |Sections(d.key[..])| then Some(Sections(d.key[..])[n]) else None
  {
    var i, found := 0, 0;
    while i < d.size
      invariant 0 <= i <= d.size && found == |Sections(d.key[..i])| <= n
    {
      SectionsNext(d.key[..], i);
      assert d.key[..][..i] == d.key[..i] && d.key[..][..i + 1] == d.key[..i + 1];
      if d.key[i] != None {
        if ':' !in d.key[i].value {
          found := found + 1;
          if found > n {
            SectionsGrow(d.key[..], i + 1, d.size);
            assert d.key[..][..d.size] == d.key[..];
            assert Sections(d.key[..i + 1])[n] == d.key[i].value;
            return d.key[i];
          }
        }
      }
      i := i + 1;
    }
    assert d.key[..i] == d.key[..];
    return None;
  }

  lemma Assoc(a: string, b: string, c: string)
    ensures (a + b) + c == a + (b + c)
  {
  }

  /** The inner loop of `iniparser_dump_ini`: the entries of one section. */
  method DumpEntries(d: Dictionary, sec: string, f0: string) returns (f: string)
    requires d.Valid()
    ensures f == f0 + EntriesText(d.key[..], d.val[..], sec, 0)
  {
    hide EntryText;
    f := f0;
    var keym := sec + ":";
    var j := 0;
    while j < d.size
      invariant 0 <= j <= d.size
      invariant f + EntriesText(d.key[..], d.val[..], sec, j) == f0 + EntriesText(d.key[..], d.val[..], sec, 0)
    {
      assert d.key[..][j] == d.key[j] && d.val[..][j] == d.val[j];
      if d.key[j] != None && keym <= d.key[j].value {
        var line := EntryText(d.key[j].value[|sec| + 1..], if d.val[j] != None then d.val[j].value else "");
        Assoc(f, line, EntriesText(d.key[..], d.val[..], sec, j + 1));
        f := f + line;
      }
      j := j + 1;
    }
    assert f + "" == f;
  }

  method DumpPlain(d: Dictionary) returns (f: string)
    requires d.Valid()
    ensures f == PlainText(d.key[..], d.val[..], 0)
  {
    f := "";
    var i := 0;
    while i < d.size
      invariant 0 <= i <= d.size
      invariant f + PlainText(d.key[..], d.val[..], i) == PlainText(d.key[..], d.val[..], 0)
    {
      assert d.key[..][i] == d.key[i] && d.val[..][i] == d.val[i];
      if d.key[i] != None {
        var line := d.key[i].value + " = " + (if d.val[i] != None then d.val[i].value else "(null)") + "\n";
        Assoc(f, line, PlainText(d.key[..], d.val[..], i + 1));
        f := f + line;
      }
      i := i + 1;
    }
    assert f + "" == f;
  }

  /** `iniparser_dump_ini` */
  method DumpIni(d: Dictionary) returns (f: string)
    requires d.Valid()
    ensures f == Dumped(d.key[..], d.val[..])
  {
    hide Sections, PlainText, EntriesText;
    var nsec := GetNSec(d);
    if nsec < 1 {
      f := DumpPlain(d);
      return;
    }
    f := "";
    var i := 0;
    ghost var secs := Sections(d.key[..]);
    assert secs[0..] == secs;
    while i < nsec
      invariant 0 <= i <= nsec
      invariant f + SectionsText(d.key[..], d.val[..], secs[i..]) == SectionsText(d.key[..], d.val[..], secs)
    {
      var name := GetSecName(d, i);
      ghost var f0 := f;
      var head := "\n" + ("[" + name.value + "]\n");
      f := f + head;
      f := DumpEntries(d, name.value, f);
      Pieces(f0, head, EntriesText(d.key[..], d.val[..], name.value, 0),
             SectionsText(d.key[..], d.val[..], secs[i + 1..]));
      assert secs[i..][1..] == secs[i + 1..];
      i := i + 1;
    }
    assert secs[i..] == [];
    f := f + "\n";
  }

  lemma Pieces(a: string, b: string, c: string, d: string)
    ensures ((a + b) + c) + d == a + ((b + c) + d)
  {
  }

  /** The loop of `iniparser_new` over the lines of a file; the slots hold what `Parsed` says. */
  method IniNew(hashOf: string -> nat, text: string) returns (d: Dictionary)
    ensures d.Valid() && d.contents == Parsed(text, "", map[]) && fresh(d) && fresh(d.key) && fresh(d.val)
    ensures fresh(d.hash)
  {
    hide ParseLine, LineLen;
    d := new Dictionary(hashOf, 0);
    var sec, rest := "", text;
    while rest != []
      invariant d.Valid() && fresh(d) && fresh(d.key) && fresh(d.val) && fresh(d.hash)
      invariant Parsed(rest, sec, d.contents) == Parsed(text, "", map[])
      decreases |rest|
    {
      var n := LineLen(rest);
      var line := rest[..n];
      rest := rest[n..];
      match ParseLine(line) {
        case Ignored =>
        case SectionLine(name) =>
          sec := name;
          d.Set(sec, None);
        case EntryLine(key, val) =>
          d.Set(sec + ":" + key, Some(val));
      }
    }
  }

  /** Writing a well-formed dictionary and reading it back gives the same map. */
  method SaveAndLoad(d: Dictionary) returns (e: Dictionary)
    requires d.Valid() && WellFormed(d.contents)
    ensures e.Valid() && e.contents == d.contents
  {
    var text := DumpIni(d);
    DumpRoundTrip(d.key[..], d.val[..], d.contents);
    e := IniNew(d.hashOf, text);
  }
}
