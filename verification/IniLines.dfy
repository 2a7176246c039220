/** What single lines of an ini file mean to `iniparser_new`, and what a printed entry looks like. */
module IniLines {
  import opened Options
  import opened IniText

  /** A line that begins with a semicolon or a number sign, after blanks, is a comment. */
  lemma {:induction false} CommentIgnored(blanks: string, line: string)
    requires forall i :: 0 <= i < |blanks| ==> IsSpace(blanks[i])
    requires line == "" || line[0] == ';' || line[0] == '#'
    ensures ParseLine(blanks + line) == Ignored
  {
    BlanksSkipped(blanks, line);
  }

  lemma {:induction false} BlanksSkipped(blanks: string, line: string)
    requires forall i :: 0 <= i < |blanks| ==> IsSpace(blanks[i])
    requires line == "" || !IsSpace(line[0])
    ensures SkipSpace(blanks + line) == line
  {
    if blanks == "" {
      assert blanks + line == line;
    } else {
      BlanksSkipped(blanks[1..], line);
      assert (blanks + line)[1..] == blanks[1..] + line;
    }
  }

  /** Upper-case letters become lower-case ones, and nothing else changes. */
  lemma LowerLetters(s: string, i: nat)
    requires i < |s|
    ensures 'A' <= s[i] <= 'Z' ==> Lower(s)[i] as int == s[i] as int + ('a' as int - 'A' as int)
    ensures !('A' <= s[i] <= 'Z') ==> Lower(s)[i] == s[i]
  {
  }

  /** `[name]` opens the section with the name in lower case. */
  lemma SectionRead(name: string, rest: string)
    requires name != "" && ']' !in name
    ensures ParseLine("[" + name + "]" + rest) == SectionLine(Lower(name))
  {
    hide RunLen, Lower;
    var line := "[" + name + "]" + rest;
    SkipNothing(line);
    assert line[1..] == name + ("]" + rest);
    RunWhole(name, "]" + rest, {']'});
    StopsAtOnce("]" + rest, {']'});
    assert line[1..1 + |name|] == name;
  }

  /** The key of an entry: what is in front of the equals sign, without the blank, in lower case. */
  predicate IsKey(name: string) {
    Trimmed(name) && '=' !in name && name[0] != ';' && name[0] != '#' && name[0] != '['
  }

  lemma EntryStarts(name: string, rest: string)
    requires IsKey(name) && rest != "" && !IsSpace(rest[0])
    ensures var line := name + " = " + rest;
      && SkipSpace(line) == line && line != [] && line[0] != ';' && line[0] != '#' && ScanSection(line) == None
      && RunLen(line, {'='}) == |name| + 1
      && line[..|name| + 1] == name + " " && AfterEquals(line[|name| + 1..]) == Some(rest)
  {
    hide RunLen;
    var line := name + " = " + rest;
    SkipNothing(line);
    var key := name + " ";
    assert line == key + ("= " + rest);
    RunWhole(key, "= " + rest, {'='});
    StopsAtOnce("= " + rest, {'='});
    SkipNothing("= " + rest);
    assert ("= " + rest)[1..] == " " + rest;
    SkipOne(rest);
  }

  /** Without quotes the value ends at a comment, and blanks around it go. */
  lemma PlainEntryRead(name: string, val: string, blanks: string, comment: string)
    requires IsKey(name) && Trimmed(val) && ';' !in val && '#' !in val && val[0] != '"' && val[0] != '\''
    requires blanks != "" && forall i :: 0 <= i < |blanks| ==> IsSpace(blanks[i])
    requires comment == "" || comment[0] == ';' || comment[0] == '#'
    ensures ParseLine(name + " = " + (val + blanks + comment)) == EntryLine(Lower(name), val)
  {
    hide RunLen, AfterEquals, SkipSpace, Lower, Crop, ScanSection;
    var rest := val + blanks + comment;
    EntryStarts(name, rest);
    BlanksFree(blanks);
    assert rest == (val + blanks) + comment;
    RunWhole(val + blanks, comment, {';', '#'});
    StopsAtOnce(comment, {';', '#'});
    assert rest[..|val + blanks|] == val + blanks;
    CropSpaces(name, " ");
    CropSpaces(val, blanks);
    NotQuotes(val, blanks);
  }

  lemma BlanksFree(blanks: string)
    requires forall i :: 0 <= i < |blanks| ==> IsSpace(blanks[i])
    ensures ';' !in blanks && '#' !in blanks && '"' !in blanks && '\'' !in blanks
  {
  }

  lemma NotQuotes(val: string, blanks: string)
    requires Trimmed(val) && val[0] != '"' && val[0] != '\''
    ensures val + blanks != "\"\"" && val + blanks != "''"
  {
    assert (val + blanks)[0] == val[0];
  }

  /** In double quotes everything up to the next one is the value, comment signs included; only blanks at its end go. */
  lemma QuotedEntryRead(name: string, val: string, rest: string)
    requires IsKey(name) && val != "" && '"' !in val && val != "''"
    ensures ParseLine(name + " = " + ("\"" + val + "\"" + rest)) == EntryLine(Lower(name), Crop(val))
  {
    hide RunLen, AfterEquals, SkipSpace, Lower, Crop, ScanSection;
    var tail := "\"" + val + "\"" + rest;
    EntryStarts(name, tail);
    assert tail[1..] == val + ("\"" + rest);
    RunWhole(val, "\"" + rest, {'"'});
    StopsAtOnce("\"" + rest, {'"'});
    assert tail[1..1 + |val|] == val;
    CropSpaces(name, " ");
    assert val != "\"\"";
  }

  /** Empty quotes at the very end of the file are an empty value; in front of a line end they stay as they are. */
  lemma EmptyQuotes(name: string)
    requires IsKey(name)
    ensures ParseLine(name + " = " + "\"\"") == EntryLine(Lower(name), "")
    ensures ParseLine(name + " = " + "\"\"\n") == EntryLine(Lower(name), "\"\"")
  {
    hide ParseLine, Lower, Crop;
    EmptyQuoted(name, "");
    EmptyQuoted(name, "\n");
    assert "\"\"" + "" == "\"\"" && "\"\"" + "\n" == "\"\"\n";
    CropSpaces("\"\"", "\n");
  }

  lemma EmptyQuoted(name: string, end: string)
    requires IsKey(name) && (end == "" || end == "\n")
    ensures ParseLine(name + " = " + ("\"\"" + end))
         == EntryLine(Lower(name), if end == "" then "" else Crop("\"\"" + end))
  {
    hide RunLen, AfterEquals, SkipSpace, Lower, Crop, ScanSection;
    var tail := "\"\"" + end;
    EntryStarts(name, tail);
    assert tail[1..] == "\"" + end;
    StopsAtOnce("\"" + end, {'"'});
    assert tail == tail + [];
    RunWhole(tail, [], {';', '#'});
    StopsAtOnce([], {';', '#'});
    assert tail[..|tail|] == tail;
    CropSpaces(name, " ");
  }

  /** A printed entry: the key filled up with blanks to 30 characters, an equals sign, the value and a line end. */
  lemma PrintedEntry(name: string, val: string)
    ensures exists blanks: string ::
      && EntryText(name, val) == name + blanks + " = " + val + "\n"
      && (forall i :: 0 <= i < |blanks| ==> blanks[i] == ' ')
      && |name + blanks| == if |name| < 30 then 30 else |name|
  {
    var blanks := Pad(name)[|name|..];
    assert name + blanks == Pad(name);
  }
}
