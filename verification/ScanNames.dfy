/**
 Which characters make up names and blanks, written out, and what a scan makes of the names in exports
 (dcc/dcc_scan.c, lines 57-71, 77-113 and 145-159).
 */
module ScanNames {
  import opened Wrappers
  import opened Scan
  import opened ScanPieces
  import Atoms

  /** ASCII characters in names are letters, digits, the underscore and the dollar sign; other bytes all are. */
  lemma NameCharsAre(c: char)
    requires c as int < 256
    ensures IsIdentChar(c) <==>
      || c as int >= 128 || '0' <= c <= '9' || 'A' <= c <= 'Z' || 'a' <= c <= 'z' || c == '_' || c == '$'
    ensures IsIdentStart(c) <==> IsIdentChar(c) && !('0' <= c <= '9')
    ensures IsBlank(c) <==> c as int <= 32
  {
  }

  /** Letters, digits, underscores and dollar signs, not starting with a digit, without two underscores in a row. */
  predicate IsAsciiName(s: string) {
    && s != [] && !('0' <= s[0] <= '9')
    && (forall i :: 0 <= i < |s| ==>
          '0' <= s[i] <= '9' || 'A' <= s[i] <= 'Z' || 'a' <= s[i] <= 'z' || s[i] == '_' || s[i] == '$')
    && (forall i :: 0 < i < |s| ==> s[i - 1] != '_' || s[i] != '_')
  }

  lemma AsciiNameIsName(s: string)
    requires IsAsciiName(s)
    ensures IsName(s)
  {
    forall i | 0 <= i < |s|
      ensures IsIdentChar(s[i]) && (i == 0 ==> IsIdentStart(s[i]))
    {
      NameCharsAre(s[i]);
    }
  }

  /** Every identifier of the language without two underscores in a row is such a name. */
  lemma IdentifierIsName(s: string)
    requires Atoms.IsIdent(s) && forall i :: 0 < i < |s| ==> s[i - 1] != '_' || s[i] != '_'
    ensures IsAsciiName(s) && IsName(s)
  {
    AsciiNameIsName(s);
  }

  /** Every export of such a name is returned, with that name. */
  lemma AsciiNameReturned(name: string, rest: string, prev: char)
    requires IsAsciiName(name) && !IsIdentChar(prev)
    ensures Scan.Scan("doarr::exported " + (name + ("(" + rest)), prev) == Export(name, rest)
  {
    AsciiNameIsName(name);
    BlankIsBlank();
    var p := Exp("", "", "", " ", name, "");
    ExportOf(name, rest);
    hide *;
    ExportStep(p, rest, prev);
  }

  lemma BlankIsBlank()
    ensures AllBlank("") && AllBlank(" ")
  {
  }

  lemma ExportOf(name: string, rest: string)
    requires IsName(name)
    ensures IsFoundExport(Exp("", "", "", " ", name, ""))
    ensures Text(Exp("", "", "", " ", name, "")) + rest == "doarr::exported " + (name + ("(" + rest))
  {
    var p := Exp("", "", "", " ", name, "");
    hide IsName;
    ExportText(p, rest);
    var t := name + ("(" + rest);
    assert "" + ("(" + rest) == "(" + rest;
    assert ['d'] + ("oarr" + ("" + (":" + ("" + (":" + ("" + ("exported" + (" " + t)))))))) == "doarr::exported " + t;
  }

  /** A name with two underscores in a row is refused, as is one that no parenthesis follows. */
  lemma BadNameRefused(name: string, c: char, rest: string)
    requires name != [] && IsIdentStart(name[0]) && AllIdent(name) && !IsIdentChar(c) && !IsBlank(c)
    requires c != '(' || exists i :: 0 < i < |name| && name[i - 1] == name[i] == '_'
    ensures ScanName("xported " + (name + ([c] + rest))) == Bad
  {
    var after := [c] + rest;
    var t := " " + (name + after);
    BlankIsBlank();
    assert "xported " + (name + after) == "xported" + t;
    NameRead(" ", name, after);
    NextIs("", c, rest);
    assert "" + after == after;
    if i :| 0 < i < |name| && name[i - 1] == name[i] == '_' {
      assert name[i - 1] == '_' && name[i - 1 + 1] == '_';
      assert HasDoubleUnderscore(name);
    }
    NameThen(name, t, after);
  }

  /** What the scanner makes of a name that is followed by something else than a parenthesis, or has `__`. */
  lemma NameThen(name: string, t: string, after: string)
    requires Scan.ScanIdent(t) == Ident(name, after)
    requires HasDoubleUnderscore(name) || FirstPrintable(after).0 != Some('(')
    ensures ScanName("xported" + t) == Bad
  {
    ExactlySucceeds("xported", t);
    hide Exactly, Scan.ScanIdent, HasDoubleUnderscore, FirstPrintable;
  }
}
