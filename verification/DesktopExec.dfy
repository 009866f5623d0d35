/**
 Writing an executable path into a desktop entry's Exec key (Desktop Entry Specification, sections
 "Possible value types" and "The Exec key"), against an independent reader of the three layers.
 */
module DesktopExec {
  import opened Wrappers

  predicate Unwritable(c: char) { c == '\n' || c == '\r' || c == '\0' }

  /** Characters that must be escaped inside a quoted argument, besides the backslash. */
  predicate Reserved(c: char) { c == '"' || c == '`' || c == '$' }

  // ---------------------------------------------------------------- the reader

  function Prepend(c: char, rest: Option<string>): Option<string> {
    if rest.Some? then Some([c] + rest.value) else None
  }

  /** The string layer: `\s`, `\n`, `\t`, `\r` and `\\` are escapes; any other backslash is malformed. */
  function ReadString(s: string): Option<string> {
    if s == "" then Some("")
    else if s[0] != '\\' then Prepend(s[0], ReadString(s[1..]))
    else if |s| < 2 then None
    else if s[1] == '\\' then Prepend('\\', ReadString(s[2..]))
    else if s[1] == 's' then Prepend(' ', ReadString(s[2..]))
    else if s[1] == 'n' then Prepend('\n', ReadString(s[2..]))
    else if s[1] == 't' then Prepend('\t', ReadString(s[2..]))
    else if s[1] == 'r' then Prepend('\r', ReadString(s[2..]))
    else None
  }

  /** The rest of a quoted argument: a backslash takes the next reserved character or backslash literally, and the
      closing quote must be the last character. */
  function ReadQuotedTail(s: string): Option<string> {
    if s == "" then None
    else if s[0] == '"' then (if |s| == 1 then Some("") else None)
    else if s[0] == '\\' then
      (if |s| >= 2 && (Reserved(s[1]) || s[1] == '\\') then Prepend(s[1], ReadQuotedTail(s[2..])) else None)
    else if Reserved(s[0]) then None
    else Prepend(s[0], ReadQuotedTail(s[1..]))
  }

  function ReadQuoted(s: string): Option<string> {
    if s != "" && s[0] == '"' then ReadQuotedTail(s[1..]) else None
  }

  /** Field codes: `%%` is a percent sign; a lone one, or one before a code, is not plain text. */
  function ReadFieldCodes(s: string): Option<string> {
    if s == "" then Some("")
    else if s[0] != '%' then Prepend(s[0], ReadFieldCodes(s[1..]))
    else if |s| >= 2 && s[1] == '%' then Prepend('%', ReadFieldCodes(s[2..]))
    else None
  }

  /** The single literal argument an Exec value names, or nothing if it is malformed or has field codes. */
  function ReadExec(s: string): Option<string> {
    match ReadString(s)
    case None => None
    case Some(quoted) =>
      match ReadQuoted(quoted)
      case None => None
      case Some(argument) => ReadFieldCodes(argument)
  }

  // ---------------------------------------------------------------- the writer, layer by layer

  function WritePercent(c: char): string { if c == '%' then "%%" else [c] }

  function WriteQuoted(c: char): string {
    if c == '\\' then "\\\\" else if Reserved(c) then ['\\', c] else WritePercent(c)
  }

  function WriteBoth(c: char): string {
    if c == '\\' then "\\\\\\\\" else if Reserved(c) then ['\\', '\\', c] else WritePercent(c)
  }

  function EachPercent(path: string): string {
    if path == "" then "" else WritePercent(path[0]) + EachPercent(path[1..])
  }

  function EachQuoted(path: string): string {
    if path == "" then "" else WriteQuoted(path[0]) + EachQuoted(path[1..])
  }

  function EachBoth(path: string): string {
    if path == "" then "" else WriteBoth(path[0]) + EachBoth(path[1..])
  }

  lemma {:induction false} EachBothSnoc(path: string, c: char)
    ensures EachBoth(path + [c]) == EachBoth(path) + WriteBoth(c)
  {
    if path == "" {
      assert path + [c] == [c];
    } else {
      assert (path + [c])[1..] == path[1..] + [c];
      EachBothSnoc(path[1..], c);
    }
  }

  lemma {:induction false} PercentLayer(path: string)
    ensures ReadFieldCodes(EachPercent(path)) == Some(path)
  {
    if path != "" {
      PercentLayer(path[1..]);
      var rest := EachPercent(path[1..]);
      var s := WritePercent(path[0]) + rest;
      assert s[|WritePercent(path[0])|..] == rest;
      assert [path[0]] + path[1..] == path;
    }
  }

  lemma {:induction false} QuotedLayer(path: string)
    ensures ReadQuotedTail(EachQuoted(path) + "\"") == Some(EachPercent(path))
  {
    if path == "" {
      assert EachQuoted(path) + "\"" == "\"";
    } else {
      QuotedLayer(path[1..]);
      var c, rest := path[0], EachQuoted(path[1..]) + "\"";
      assert EachQuoted(path) + "\"" == WriteQuoted(c) + rest;
      QuotedChar(c, rest, EachPercent(path[1..]));
    }
  }

  lemma QuotedChar(c: char, rest: string, argument: string)
    requires ReadQuotedTail(rest) == Some(argument)
    ensures ReadQuotedTail(WriteQuoted(c) + rest) == Some(WritePercent(c) + argument)
  {
    var s := WriteQuoted(c) + rest;
    if c == '\\' || Reserved(c) {
      assert s[2..] == rest;
    } else if c == '%' {
      assert s[1..] == "%" + rest;
      assert ("%" + rest)[1..] == rest;
      assert ReadQuotedTail("%" + rest) == Some("%" + argument);
      assert "%" + ("%" + argument) == "%%" + argument;
    } else {
      assert s[1..] == rest;
    }
  }

  lemma {:induction false} StringLayer(path: string)
    ensures ReadString(EachBoth(path) + "\"") == Some(EachQuoted(path) + "\"")
  {
    if path == "" {
      assert EachBoth(path) + "\"" == "\"";
      assert "\""[1..] == "" && EachQuoted(path) + "\"" == "\"" == ['"'] + "";
    } else {
      StringLayer(path[1..]);
      var c, rest := path[0], EachBoth(path[1..]) + "\"";
      assert EachBoth(path) + "\"" == WriteBoth(c) + rest;
      StringChar(c, rest, EachQuoted(path[1..]) + "\"");
      assert EachQuoted(path) + "\"" == WriteQuoted(c) + (EachQuoted(path[1..]) + "\"");
    }
  }

  lemma ReadPlain(c: char, rest: string, value: string)
    requires c != '\\' && ReadString(rest) == Some(value)
    ensures ReadString([c] + rest) == Some([c] + value)
  {
    assert ([c] + rest)[1..] == rest;
  }

  lemma ReadBackslash(rest: string, value: string)
    requires ReadString(rest) == Some(value)
    ensures ReadString("\\\\" + rest) == Some("\\" + value)
  {
    assert ("\\\\" + rest)[2..] == rest;
  }

  lemma StringChar(c: char, rest: string, value: string)
    requires ReadString(rest) == Some(value)
    ensures ReadString(WriteBoth(c) + rest) == Some(WriteQuoted(c) + value)
  {
    hide ReadString;
    if c == '\\' {
      ReadBackslash(rest, value);
      ReadBackslash("\\\\" + rest, "\\" + value);
      assert "\\\\" + ("\\\\" + rest) == WriteBoth(c) + rest;
      assert "\\" + ("\\" + value) == WriteQuoted(c) + value;
    } else if Reserved(c) {
      ReadPlain(c, rest, value);
      ReadBackslash([c] + rest, [c] + value);
      assert "\\\\" + ([c] + rest) == WriteBoth(c) + rest;
      assert "\\" + ([c] + value) == WriteQuoted(c) + value;
    } else if c == '%' {
      ReadPlain('%', rest, value);
      ReadPlain('%', "%" + rest, "%" + value);
      assert "%" + ("%" + rest) == WriteBoth(c) + rest;
      assert "%" + ("%" + value) == WriteQuoted(c) + value;
    } else {
      ReadPlain(c, rest, value);
    }
  }

  /** Reading back an Exec value gives the path it was written from. */
  lemma ExecReadsBack(path: string)
    ensures ReadExec("\"" + EachBoth(path) + "\"") == Some(path)
  {
    var inner := EachBoth(path) + "\"";
    assert "\"" + EachBoth(path) + "\"" == "\"" + inner;
    assert ("\"" + inner)[1..] == inner;
    StringLayer(path);
    var quoted := "\"" + (EachQuoted(path) + "\"");
    assert ReadString("\"" + inner) == Some(quoted);
    assert quoted[1..] == EachQuoted(path) + "\"";
    QuotedLayer(path);
    PercentLayer(path);
  }

  lemma {:induction false} NoLineBreak(path: string)
    requires forall i :: 0 <= i < |path| ==> !Unwritable(path[i])
    ensures forall i :: 0 <= i < |EachBoth(path)| ==> !Unwritable(EachBoth(path)[i])
  {
    if path != "" { NoLineBreak(path[1..]); }
  }

  /** Two different paths are never written alike. */
  lemma ExecInjective(a: string, b: string)
    requires "\"" + EachBoth(a) + "\"" == "\"" + EachBoth(b) + "\""
    ensures a == b
  {
    ExecReadsBack(a);
    ExecReadsBack(b);
  }

  /** What each character is written as, told arm by arm. */
  lemma WriteBothCases(before: string, c: char)
    ensures c == '\\' ==> before + WriteBoth(c) == before + "\\\\\\\\"
    ensures c == '"' || c == '`' || c == '$' ==> before + WriteBoth(c) == before + "\\\\" + [c]
    ensures c == '%' ==> before + WriteBoth(c) == before + "%%"
    ensures c != '\\' && c != '"' && c != '`' && c != '$' && c != '%' ==> before + WriteBoth(c) == before + [c]
  {
  }

  /** Escape the string layer and the argument layer in one pass. A path is refused exactly when it holds a line break
      or a NUL; an accepted one reads back as itself, and its value has no line break. */
  method Write(path: string) returns (r: Option<string>)
    ensures r.None? <==> exists i :: 0 <= i < |path| && Unwritable(path[i])
    ensures r.Some? ==> ReadExec(r.value) == Some(path)
    ensures r.Some? ==> forall i :: 0 <= i < |r.value| ==> !Unwritable(r.value[i])
  {
    if exists i :: 0 <= i < |path| && Unwritable(path[i]) {
      return None;
    }
    var result := "\"";
    assert result == "\"" + EachBoth(path[..0]);
    hide EachBoth, ReadExec, WriteBoth;
    for i := 0 to |path|
      invariant result == "\"" + EachBoth(path[..i])
    {
      var c := path[i];
      EachBothSnoc(path[..i], c);
      assert path[..i + 1] == path[..i] + [c];
      ghost var before := result;
      WriteBothCases(before, c);
      match c {
        case '\\' => result := result + "\\\\\\\\";
        case '"' => result := result + "\\\\" + [c];
        case '`' => result := result + "\\\\" + [c];
        case '$' => result := result + "\\\\" + [c];
        case '%' => result := result + "%%";
        case _ => result := result + [c];
      }
      assert before + WriteBoth(c) == "\"" + (EachBoth(path[..i]) + WriteBoth(c));
    }
    assert path[..|path|] == path;
    NoLineBreak(path);
    ExecReadsBack(path);
    return Some(result + "\"");
  }
}
