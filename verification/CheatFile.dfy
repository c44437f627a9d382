/** The text format of cheat lists: the line parser with its scanf conversions, and the printer.
    A character is a byte. */
module CheatFile {
  import opened Options

  type Word = n: int | 0 <= n < 0x1_0000_0000

  /** CodeLen counts words, and words are only ever added in pairs. */
  datatype Code = Code(name: string, enabled: bool, pairs: seq<(Word, Word)>)

  datatype Category = Category(name: string, codes: seq<Code>)

  const MAX_PAIRS := 64
  const NAME_SIZE := 127
  const LINE_SIZE := 1023

  const NUL := 0 as char
  const CRLF := "\r\n"

  // ---- the C library

  predicate IsSpace(c: char) { c == ' ' || '\t' <= c <= '\r' }

  function SkipSpaces(s: string): string { if s != "" && IsSpace(s[0]) then SkipSpaces(s[1..]) else s }

  function SkipBlanks(s: string): string { if s != "" && s[0] in " \t" then SkipBlanks(s[1..]) else s }

  /** A character array as the string functions see it. */
  function CString(s: string): string { if s == "" || s[0] == NUL then "" else [s[0]] + CString(s[1..]) }

  function Upper(c: char): char { if 'a' <= c <= 'z' then c - 32 as char else c }

  /** strncasecmp over the whole keyword. */
  predicate StartsNoCase(s: string, keyword: string) {
    |s| >= |keyword| && forall i | 0 <= i < |keyword| :: Upper(s[i]) == Upper(keyword[i])
  }

  /** What fgets takes: up to 1023 characters, and no further than a line feed. */
  function ChunkSize(s: string, limit: nat): (n: nat)
    ensures n <= |s| && n <= limit && (s != "" && limit > 0 ==> n > 0)
  {
    if s == "" || limit == 0 then 0
    else if s[0] == '\n' then 1
    else 1 + ChunkSize(s[1..], limit - 1)
  }

  /** How many characters %[^\r\n] takes. */
  function NameSize(s: string, limit: nat): (n: nat)
    ensures n <= |s| && n <= limit && (forall i | 0 <= i < n :: s[i] != '\r' && s[i] != '\n')
  {
    if s == "" || limit == 0 || s[0] == '\r' || s[0] == '\n' then 0 else 1 + NameSize(s[1..], limit - 1)
  }

  /** A blank in the format, then %127[^\r\n]. */
  function ScanName(s: string): (r: Option<string>)
    ensures r.Some? ==> ValidName(r.value) || NUL in s
  {
    var t := SkipSpaces(s);
    SkippedSpaces(s);
    var n := NameSize(t, NAME_SIZE);
    if n == 0 then None else Some(t[..n])
  }

  lemma {:induction false} SkippedSpaces(s: string)
    ensures var t := SkipSpaces(s); (t != "" ==> !IsSpace(t[0])) && (forall c | c in t :: c in s)
  {
    if s != "" && IsSpace(s[0]) {
      SkippedSpaces(s[1..]);
    }
  }

  predicate IsDigit(c: char) { '0' <= c <= '9' }

  function Digits(s: string): (n: nat)
    ensures n <= |s| && forall i | 0 <= i < n :: IsDigit(s[i])
  {
    if s != "" && IsDigit(s[0]) then 1 + Digits(s[1..]) else 0
  }

  predicate AllZero(s: string) { forall c | c in s :: c == '0' }

  /** A blank, then %d: whether the number is not zero, and the rest. */
  function ScanFlag(s: string): Option<(bool, string)> {
    var t := SkipSpaces(s);
    var u := if t != "" && t[0] in "+-" then t[1..] else t;
    var n := Digits(u);
    if n == 0 then None else Some((!AllZero(u[..n]), u[n..]))
  }

  predicate IsHex(c: char) { IsDigit(c) || 'A' <= c <= 'F' || 'a' <= c <= 'f' }

  function HexDigit(c: char): (d: nat)
    requires IsHex(c)
    ensures d < 16 && c in ["0123456789ABCDEF"[d], "0123456789abcdef"[d]]
  {
    if IsDigit(c) then c as nat - '0' as nat
    else if c <= 'F' then c as nat - 'A' as nat + 10
    else c as nat - 'a' as nat + 10
  }

  function HexSize(s: string, limit: nat): (n: nat)
    ensures n <= |s| && n <= limit && forall i | 0 <= i < n :: IsHex(s[i])
  {
    if s == "" || limit == 0 || !IsHex(s[0]) then 0 else 1 + HexSize(s[1..], limit - 1)
  }

  function HexValue(s: string): nat
    requires forall c | c in s :: IsHex(c)
  {
    if s == "" then 0 else 16 * HexValue(s[..|s| - 1]) + HexDigit(s[|s| - 1])
  }

  predicate IsPrefixed(u: string) { |u| >= 3 && u[0] == '0' && u[1] in "xX" && IsHex(u[2]) }

  function Negated(negative: bool, v: int): Word { (if negative then -v else v) % 0x1_0000_0000 }

  /** The digits, at most limit of them. */
  function ScanDigits(v: string, limit: nat, negative: bool): Option<(Word, string)> {
    var n := HexSize(v, limit);
    if n == 0 then None else Some((Negated(negative, HexValue(v[..n])), v[n..]))
  }

  /** A blank, then %08X: at most eight characters, with a sign and a 0x prefix allowed. */
  function ScanHex(s: string): Option<(Word, string)> {
    var t := SkipSpaces(s);
    var signed := t != "" && t[0] in "+-";
    var u := if signed then t[1..] else t;
    var width := if signed then 7 else 8;
    if IsPrefixed(u) then ScanDigits(u[2..], width - 2, signed && t[0] == '-')
    else ScanDigits(u, width, signed && t[0] == '-')
  }

  // ---- the parser

  datatype Loader = Loader(done: seq<Category>, isInCat: bool, curCat: Category, isInCode: bool, curCode: Code)

  const EMPTY := Loader([], false, Category("", []), false, Code("", false, []))

  /** The code being read joins its category, the category the list. */
  function EndCode(st: Loader): Category {
    if st.isInCode then st.curCat.(codes := st.curCat.codes + [st.curCode]) else st.curCat
  }

  function EndCategory(st: Loader): seq<Category> {
    if st.isInCat then st.done + [EndCode(st)] else st.done
  }

  predicate Literal(s: string, keyword: string)
    ensures Literal(s, keyword) ==> |s| >= |keyword|
  {
    |s| >= |keyword| && s[..|keyword|] == keyword
  }

  /** One line; None is one of the errors that make Load fail. */
  function Feed(st: Loader, line: string): Option<Loader> {
    var s := SkipBlanks(CString(line));
    if s == "" || s[0] in "#\r\n" then Some(st)
    else if StartsNoCase(s, "CAT") then
      if !Literal(s, "CAT") then None
      else
        var name := ScanName(s[3..]);
        if name.None? then None
        else Some(Loader(EndCategory(st), true, Category(name.value, []), false, st.curCode))
    else if StartsNoCase(s, "CODE") then
      if !Literal(s, "CODE") then None
      else
        var flag := ScanFlag(s[4..]);
        if flag.None? then None
        else
          var name := ScanName(flag.value.1);
          if name.None? || !st.isInCat then None
          else Some(st.(curCat := EndCode(st), isInCode := true, curCode := Code(name.value, flag.value.0, [])))
    else
      var first := ScanHex(s);
      if first.None? then None
      else
        var second := ScanHex(first.value.1);
        if second.None? || !st.isInCode || |st.curCode.pairs| >= MAX_PAIRS then None
        else Some(st.(curCode := st.curCode.(pairs := st.curCode.pairs + [(first.value.0, second.value.0)])))
  }

  /** The rest of a file, from a state of the parser. */
  function LoadFrom(st: Loader, text: string): Option<seq<Category>>
    decreases |text|
  {
    if text == "" then Some(EndCategory(st))
    else
      var n := ChunkSize(text, LINE_SIZE);
      var next := Feed(st, text[..n]);
      if next.None? then None else LoadFrom(next.value, text[n..])
  }

  // ---- the printer

  function HexChar(d: nat): (c: char)
    requires d < 16
    ensures IsHex(c) && c !in "xX" && HexDigit(c) == d
  {
    if d < 10 then ('0' as nat + d) as char else ('A' as nat + d - 10) as char
  }

  /** n upper-case digits. */
  function PrintHex(w: nat, n: nat): (s: string)
    ensures |s| == n
  {
    if n == 0 then "" else PrintHex(w / 16, n - 1) + [HexChar(w % 16)]
  }

  function PrintPair(p: (Word, Word)): string { PrintHex(p.0, 8) + " " + PrintHex(p.1, 8) + CRLF }

  function PrintPairs(ps: seq<(Word, Word)>): string {
    if ps == [] then "" else PrintPairs(ps[..|ps| - 1]) + PrintPair(ps[|ps| - 1])
  }

  function PrintFlag(b: bool): string { if b then "1" else "0" }

  function PrintCode(c: Code): string {
    "CODE " + PrintFlag(c.enabled) + " " + c.name + CRLF + PrintPairs(c.pairs) + CRLF
  }

  function PrintCodes(cs: seq<Code>): string {
    if cs == [] then "" else PrintCodes(cs[..|cs| - 1]) + PrintCode(cs[|cs| - 1])
  }

  function PrintCategory(c: Category): string { "CAT " + c.name + CRLF + CRLF + PrintCodes(c.codes) }

  function Print(cats: seq<Category>): string {
    if cats == [] then ""
    else Print(cats[..|cats| - 1]) + (if |cats| > 1 then CRLF else "") + PrintCategory(cats[|cats| - 1])
  }

  // ---- what can be loaded

  predicate ValidName(n: string) {
    0 < |n| <= NAME_SIZE && !IsSpace(n[0]) && forall c | c in n :: c != '\r' && c != '\n' && c != NUL
  }

  predicate ValidCode(c: Code) { ValidName(c.name) && |c.pairs| <= MAX_PAIRS }

  predicate ValidCategory(c: Category) { ValidName(c.name) && forall i | 0 <= i < |c.codes| :: ValidCode(c.codes[i]) }

  predicate ValidList(cats: seq<Category>) { forall i | 0 <= i < |cats| :: ValidCategory(cats[i]) }

  /** What the parser holds at any time can be the beginning of a list. */
  predicate ValidLoader(st: Loader) {
    && ValidList(st.done) && (st.isInCat ==> ValidCategory(st.curCat))
    && (st.isInCode ==> st.isInCat && ValidCode(st.curCode))
  }

  lemma {:induction false} CStringHasNoNul(s: string)
    ensures NUL !in CString(s)
  {
    if s != "" && s[0] != NUL {
      CStringHasNoNul(s[1..]);
    }
  }

  lemma {:induction false} BlanksSkipped(s: string)
    ensures forall c | c in SkipBlanks(s) :: c in s
  {
    if s != "" && s[0] in " \t" {
      BlanksSkipped(s[1..]);
    }
  }

  lemma FeedKeepsValid(st: Loader, line: string)
    requires ValidLoader(st) && Feed(st, line).Some?
    ensures ValidLoader(Feed(st, line).value)
  {
    CStringHasNoNul(line);
    BlanksSkipped(CString(line));
    hide StartsNoCase, ScanHex, SkipBlanks, CString, SkipSpaces, ValidName;
    var s := SkipBlanks(CString(line));
    if s != "" && StartsNoCase(s, "CODE") && Literal(s, "CODE") {
      FlagRest(s[4..]);
    }
  }

  lemma FlagRest(s: string)
    ensures ScanFlag(s).Some? ==> forall c | c in ScanFlag(s).value.1 :: c in s
  {
    SkippedSpaces(s);
  }

  /** Whatever the file contained, a list that was loaded has only names that are not empty, at
      most 127 characters, free of CR, LF and NUL, and do not start with a space. */
  lemma {:induction false} LoadedIsValid(st: Loader, text: string)
    requires ValidLoader(st) && LoadFrom(st, text).Some?
    ensures ValidList(LoadFrom(st, text).value)
    decreases |text|
  {
    if text != "" {
      var n := ChunkSize(text, LINE_SIZE);
      FeedKeepsValid(st, text[..n]);
      LoadedIsValid(Feed(st, text[..n]).value, text[n..]);
    }
  }

  // ---- reading printed lines

  predicate IsLine(l: string) {
    0 < |l| <= LINE_SIZE && l[|l| - 1] == '\n' && forall i | 0 <= i < |l| - 1 :: l[i] != '\n'
  }

  lemma {:induction false} ChunkIsLine(l: string, rest: string, limit: nat)
    requires 0 < |l| <= limit && l[|l| - 1] == '\n' && forall i | 0 <= i < |l| - 1 :: l[i] != '\n'
    ensures ChunkSize(l + rest, limit) == |l|
  {
    if |l| > 1 {
      assert (l + rest)[1..] == l[1..] + rest;
      ChunkIsLine(l[1..], rest, limit - 1);
    }
  }

  lemma LoadLine(st: Loader, l: string, rest: string)
    requires IsLine(l)
    ensures LoadFrom(st, l + rest) == if Feed(st, l).None? then None else LoadFrom(Feed(st, l).value, rest)
  {
    ChunkIsLine(l, rest, LINE_SIZE);
    assert (l + rest)[..|l|] == l && (l + rest)[|l|..] == rest;
  }

  lemma {:induction false} NoNul(s: string)
    requires NUL !in s
    ensures CString(s) == s
  {
    if s != "" {
      NoNul(s[1..]);
      assert s == [s[0]] + s[1..];
    }
  }

  lemma {:induction false} NameRuns(n: string, rest: string, limit: nat)
    requires |n| <= limit && rest != "" && rest[0] == '\r' && forall c | c in n :: c != '\r' && c != '\n'
    ensures NameSize(n + rest, limit) == |n|
  {
    if n != "" {
      assert (n + rest)[1..] == n[1..] + rest && n[0] in n && forall c | c in n[1..] :: c in n;
      NameRuns(n[1..], rest, limit - 1);
    } else {
      assert n + rest == rest;
    }
  }

  lemma {:induction false} HexRuns(d: string, rest: string, limit: nat)
    requires |d| <= limit && (forall c | c in d :: IsHex(c)) && (|d| == limit || rest == "" || !IsHex(rest[0]))
    ensures HexSize(d + rest, limit) == |d|
  {
    if d != "" {
      assert (d + rest)[1..] == d[1..] + rest;
      HexRuns(d[1..], rest, limit - 1);
    } else {
      assert d + rest == rest;
    }
  }

  function Power16(n: nat): nat { if n == 0 then 1 else 16 * Power16(n - 1) }

  lemma {:induction false} PrintedHex(w: nat, n: nat)
    requires w < Power16(n)
    ensures var s := PrintHex(w, n); (forall c | c in s :: IsHex(c) && c !in "xX") && HexValue(s) == w
  {
    if n > 0 {
      PrintedHex(w / 16, n - 1);
      hide IsHex, HexChar;
      assert PrintHex(w, n)[..n - 1] == PrintHex(w / 16, n - 1);
    }
  }

  lemma ScanPrintedHex(w: Word, before: string, rest: string)
    requires before in {"", " "} && (rest == "" || !IsHex(rest[0]))
    ensures ScanHex(before + PrintHex(w, 8) + rest) == Some((w, rest))
  {
    hide PrintHex, HexValue, IsHex, SkipSpaces, HexSize, ScanHex;
    var d := PrintHex(w, 8);
    Power16Of8();
    PrintedHex(w, 8);
    assert IsHex(d[0]) && d[1] !in "xX" by {
      assert d[0] in d && d[1] in d;
    }
    OneBlank(before, d + rest);
    assert before + d + rest == before + (d + rest);
    HexRuns(d, rest, 8);
    ScanEight(before + (d + rest), d, rest);
  }

  /** Eight digits without a prefix, after spaces. */
  lemma ScanEight(s: string, d: string, rest: string)
    requires SkipSpaces(s) == d + rest && |d| == 8 && IsHex(d[0]) && d[1] !in "xX"
    requires HexSize(d + rest, 8) == 8 && forall c | c in d :: IsHex(c)
    ensures ScanHex(s) == Some((HexValue(d) % 0x1_0000_0000, rest))
  {
    NotASign(d[0]);
    hide HexValue, IsHex, SkipSpaces, HexSize;
    var t := d + rest;
    assert t[0] == d[0] && t[1] == d[1] && t[..8] == d && t[8..] == rest;
  }

  lemma Power16Of8()
    ensures Power16(8) == 0x1_0000_0000
  {
    assert Power16(4) == 0x1_0000;
  }

  lemma NotASign(c: char)
    ensures IsHex(c) ==> c !in "+-" && !IsSpace(c)
  {
  }

  /** An optional blank before something that is not a space. */
  lemma OneBlank(before: string, t: string)
    requires before in {"", " "} && t != "" && (IsHex(t[0]) || !IsSpace(t[0]))
    ensures SkipSpaces(before + t) == t
  {
    if before == "" {
      assert before + t == t;
    } else {
      assert (before + t)[1..] == t;
    }
  }

  lemma ScanPrintedName(n: string)
    requires ValidName(n)
    ensures ScanName(" " + n + CRLF) == Some(n)
  {
    var t := n + CRLF;
    OneBlank(" ", t);
    assert " " + n + CRLF == " " + t;
    NameRuns(n, CRLF, NAME_SIZE);
    assert t[..|n|] == n;
  }

  /** A printed line comes out of the C string and blank handling as it went in. */
  lemma PrintedLine(l: string)
    requires NUL !in l && l != "" && l[0] !in " \t"
    ensures SkipBlanks(CString(l)) == l
  {
    NoNul(l);
  }

  lemma LineOf(body: string)
    requires '\n' !in body && |body| + 2 <= LINE_SIZE
    ensures IsLine(body + CRLF)
  {
    forall i | 0 <= i < |body + CRLF| - 1 ensures (body + CRLF)[i] != '\n' {
      if i < |body| {
        assert (body + CRLF)[i] == body[i];
      }
    }
  }

  lemma FeedBlank(st: Loader)
    ensures Feed(st, CRLF) == Some(st) && IsLine(CRLF)
  {
    PrintedLine(CRLF);
  }

  lemma FeedCategory(st: Loader, n: string)
    requires ValidName(n)
    ensures Feed(st, "CAT " + n + CRLF) == Some(Loader(EndCategory(st), true, Category(n, []), false, st.curCode))
    ensures IsLine("CAT " + n + CRLF)
  {
    hide ScanHex, ScanFlag;
    var l := "CAT " + n + CRLF;
    PrintedLine(l);
    assert l[..3] == "CAT" && l[3..] == " " + n + CRLF;
    assert StartsNoCase(l, "CAT") by {
      assert forall i | 0 <= i < 3 :: l[i] == "CAT"[i];
    }
    LineOf("CAT " + n);
    ScanPrintedName(n);
    hide ScanName, SkipBlanks, CString, StartsNoCase, IsLine;
    assert l[0] == 'C' && Literal(l, "CAT");
  }

  lemma FeedCode(st: Loader, n: string, enabled: bool)
    requires ValidName(n) && st.isInCat
    ensures var l := "CODE " + PrintFlag(enabled) + " " + n + CRLF;
      && Feed(st, l) == Some(st.(curCat := EndCode(st), isInCode := true, curCode := Code(n, enabled, [])))
      && IsLine(l)
  {
    hide ScanName, ScanFlag, SkipBlanks, CString, StartsNoCase, IsLine, ValidName;
    CodeLine(n, enabled);
    var l, rest := "CODE " + PrintFlag(enabled) + " " + n + CRLF, " " + n + CRLF;
    PrintedLine(l);
    ScanPrintedFlag(enabled, rest);
    ScanPrintedName(n);
  }

  lemma CodeLine(n: string, enabled: bool)
    requires ValidName(n)
    ensures var l := "CODE " + PrintFlag(enabled) + " " + n + CRLF;
      && NUL !in l && l[0] == 'C' && IsLine(l) && StartsNoCase(l, "CODE") && !StartsNoCase(l, "CAT") &&
        Literal(l, "CODE")
      && l[4..] == " " + PrintFlag(enabled) + (" " + n + CRLF)
  {
    var l, rest := "CODE " + PrintFlag(enabled) + " " + n + CRLF, " " + n + CRLF;
    assert l == "CODE" + (" " + PrintFlag(enabled) + rest);
    assert forall i | 0 <= i < 4 :: l[i] == "CODE"[i];
    assert l[1] == 'O' && Upper('O') != Upper('A');
    hide IsLine;
    LineOf("CODE " + PrintFlag(enabled) + " " + n);
  }

  lemma ScanPrintedFlag(enabled: bool, rest: string)
    requires rest != "" && rest[0] == ' '
    ensures ScanFlag(" " + PrintFlag(enabled) + rest) == Some((enabled, rest))
  {
    var t := PrintFlag(enabled) + rest;
    OneBlank(" ", t);
    assert " " + PrintFlag(enabled) + rest == " " + t;
    assert t[0] == PrintFlag(enabled)[0] && t[1..] == rest;
    assert Digits(t) == 1 + Digits(rest) && Digits(rest) == 0;
    assert t[..1] == PrintFlag(enabled);
  }

  lemma FeedPair(st: Loader, p: (Word, Word))
    requires st.isInCode && |st.curCode.pairs| < MAX_PAIRS
    ensures Feed(st, PrintPair(p)) == Some(st.(curCode := st.curCode.(pairs := st.curCode.pairs + [p])))
    ensures IsLine(PrintPair(p))
  {
    hide PrintHex, ScanHex, SkipBlanks, CString, StartsNoCase, IsHex, IsLine;
    var l, rest := PrintPair(p), " " + PrintHex(p.1, 8) + CRLF;
    PairLine(p);
    PrintedLine(l);
    NotAKeyword(l);
    assert l == "" + PrintHex(p.0, 8) + rest;
    NotHex();
    ScanPrintedHex(p.0, "", rest);
    ScanPrintedHex(p.1, " ", CRLF);
  }

  lemma NotHex()
    ensures !IsHex(' ') && !IsHex('\r')
  {
  }

  lemma PairLine(p: (Word, Word))
    ensures var l := PrintPair(p);
      |l| == 19 && IsLine(l) && NUL !in l && (forall i | 0 <= i < 4 :: IsHex(l[i])) && l[0] !in " \t"
  {
    var l, d0, d1 := PrintPair(p), PrintHex(p.0, 8), PrintHex(p.1, 8);
    PrintedDigits(p.0);
    PrintedDigits(p.1);
    hide PrintHex, IsLine;
    assert forall i | 0 <= i < 8 :: l[i] == d0[i];
    assert NUL !in d0 && NUL !in d1 && '\n' !in d0 && '\n' !in d1;
    LineOf(d0 + " " + d1);
  }

  lemma PrintedDigits(w: Word)
    ensures forall i | 0 <= i < 8 :: IsHex(PrintHex(w, 8)[i])
  {
    Power16Of8();
    PrintedHex(w, 8);
    forall i | 0 <= i < 8 ensures IsHex(PrintHex(w, 8)[i]) {
      assert PrintHex(w, 8)[i] in PrintHex(w, 8);
    }
  }

  lemma NotAKeyword(l: string)
    requires |l| >= 4 && forall i | 0 <= i < 4 :: IsHex(l[i])
    ensures !StartsNoCase(l, "CAT") && !StartsNoCase(l, "CODE") && l[0] !in "#\r\n \t"
  {
    assert Upper(l[2]) != Upper("CAT"[2]) && Upper(l[1]) != Upper("CODE"[1]);
  }

  // ---- the round trip

  lemma {:induction false} LoadPairs(st: Loader, ps: seq<(Word, Word)>, rest: string)
    requires st.isInCode && |st.curCode.pairs| + |ps| <= MAX_PAIRS
    ensures LoadFrom(st, PrintPairs(ps) + rest) ==
      LoadFrom(st.(curCode := st.curCode.(pairs := st.curCode.pairs + ps)), rest)
  {
    hide PrintPair, LoadFrom, Feed, IsLine;
    if ps == [] {
      assert PrintPairs(ps) + rest == rest && st.curCode.pairs + ps == st.curCode.pairs;
    } else {
      var init, last := ps[..|ps| - 1], ps[|ps| - 1];
      var mid := st.(curCode := st.curCode.(pairs := st.curCode.pairs + init));
      LoadPairs(st, init, PrintPair(last) + rest);
      assert PrintPairs(ps) + rest == PrintPairs(init) + (PrintPair(last) + rest);
      FeedPair(mid, last);
      LoadLine(mid, PrintPair(last), rest);
      assert st.curCode.pairs + init + [last] == st.curCode.pairs + ps;
    }
  }

  lemma LoadCode(st: Loader, c: Code, rest: string) returns (st': Loader)
    requires ValidCode(c) && st.isInCat
    ensures LoadFrom(st, PrintCode(c) + rest) == LoadFrom(st', rest)
    ensures st' == st.(curCat := EndCode(st), isInCode := true, curCode := c)
  {
    hide LoadFrom, Feed, IsLine, PrintPairs, ValidName;
    st' := st.(curCat := EndCode(st), isInCode := true, curCode := c);
    var head := "CODE " + PrintFlag(c.enabled) + " " + c.name + CRLF;
    var started := st'.(curCode := Code(c.name, c.enabled, []));
    assert PrintCode(c) + rest == head + (PrintPairs(c.pairs) + (CRLF + rest));
    FeedCode(st, c.name, c.enabled);
    LoadLine(st, head, PrintPairs(c.pairs) + (CRLF + rest));
    LoadPairs(started, c.pairs, CRLF + rest);
    assert [] + c.pairs == c.pairs;
    FeedBlank(st');
    LoadLine(st', CRLF, rest);
  }

  lemma {:induction false} LoadCodes(st: Loader, cs: seq<Code>, rest: string) returns (st': Loader)
    requires (forall i | 0 <= i < |cs| :: ValidCode(cs[i])) && st.isInCat
    ensures LoadFrom(st, PrintCodes(cs) + rest) == LoadFrom(st', rest)
    ensures st'.isInCat && st'.done == st.done && EndCode(st') == EndCode(st).(codes := EndCode(st).codes + cs)
  {
    hide LoadFrom, PrintCode, ValidCode;
    if cs == [] {
      st' := st;
      assert PrintCodes(cs) + rest == rest && EndCode(st).codes + cs == EndCode(st).codes;
    } else {
      var init, last := cs[..|cs| - 1], cs[|cs| - 1];
      var mid := LoadCodes(st, init, PrintCode(last) + rest);
      assert PrintCodes(cs) + rest == PrintCodes(init) + (PrintCode(last) + rest);
      st' := LoadCode(mid, last, rest);
      assert EndCode(st).codes + init + [last] == EndCode(st).codes + cs;
    }
  }

  lemma LoadCategory(st: Loader, c: Category, rest: string) returns (st': Loader)
    requires ValidCategory(c)
    ensures LoadFrom(st, PrintCategory(c) + rest) == LoadFrom(st', rest)
    ensures st'.isInCat && EndCategory(st') == EndCategory(st) + [c]
  {
    hide LoadFrom, Feed, IsLine, PrintCodes, ValidName, ValidCode;
    var head := "CAT " + c.name + CRLF;
    var started := Loader(EndCategory(st), true, Category(c.name, []), false, st.curCode);
    assert PrintCategory(c) + rest == head + (CRLF + (PrintCodes(c.codes) + rest));
    FeedCategory(st, c.name);
    LoadLine(st, head, CRLF + (PrintCodes(c.codes) + rest));
    FeedBlank(started);
    LoadLine(started, CRLF, PrintCodes(c.codes) + rest);
    st' := LoadCodes(started, c.codes, rest);
    assert [] + c.codes == c.codes;
  }

  lemma {:induction false} LoadPrinted(cats: seq<Category>, rest: string) returns (st: Loader)
    requires ValidList(cats)
    ensures LoadFrom(EMPTY, Print(cats) + rest) == LoadFrom(st, rest)
    ensures EndCategory(st) == cats
  {
    hide LoadFrom, PrintCategory, ValidCategory;
    if cats == [] {
      st := EMPTY;
      assert Print(cats) + rest == rest;
    } else {
      var init, last := cats[..|cats| - 1], cats[|cats| - 1];
      var gap := if |cats| > 1 then CRLF else "";
      var mid := LoadPrinted(init, gap + (PrintCategory(last) + rest));
      assert Print(cats) + rest == Print(init) + (gap + (PrintCategory(last) + rest));
      if |cats| > 1 {
        FeedBlank(mid);
        LoadLine(mid, CRLF, PrintCategory(last) + rest);
      } else {
        assert gap + (PrintCategory(last) + rest) == PrintCategory(last) + rest;
      }
      st := LoadCategory(mid, last, rest);
    }
  }

  /** Loading what was saved gives the list back exactly for the lists that any file can be
      loaded as. */
  lemma RoundTripExactly(cats: seq<Category>)
    ensures LoadFrom(EMPTY, Print(cats)) == Some(cats) <==> ValidList(cats)
  {
    if ValidList(cats) {
      var st := LoadPrinted(cats, "");
      assert Print(cats) + "" == Print(cats);
    }
    if LoadFrom(EMPTY, Print(cats)).Some? {
      LoadedIsValid(EMPTY, Print(cats));
    }
  }

  /** A list that was loaded can be saved and loaded again unchanged. */
  lemma SavedAgainUnchanged(text: string)
    requires LoadFrom(EMPTY, text).Some?
    ensures var cats := LoadFrom(EMPTY, text).value; LoadFrom(EMPTY, Print(cats)) == Some(cats)
  {
    LoadedIsValid(EMPTY, text);
    RoundTripExactly(LoadFrom(EMPTY, text).value);
  }

  // ---- the file object

  /** A file is its text; None is a file that cannot be opened. */
  class ARCodeFile {
    var categories: seq<Category>
    var error: bool

    constructor (file: Option<string>)
      ensures file.None? ==> !error && categories == []
      ensures file.Some? ==> error == LoadFrom(EMPTY, file.value).None?
      ensures file.Some? && !error ==> Some(categories) == LoadFrom(EMPTY, file.value)
    {
      categories, error := [], false;
      new;
      var ok := Load(file);
      if !ok {
        error := true;
      }
    }

    /** The line loop, with the category and the code that are being read in local variables. */
    method Load(file: Option<string>) returns (ok: bool)
      modifies this`categories
      ensures file.None? ==> ok && categories == old(categories)
      ensures file.Some? ==> ok == LoadFrom(EMPTY, file.value).Some?
      ensures file.Some? && ok ==> Some(categories) == LoadFrom(EMPTY, file.value)
    {
      hide ScanHex, ScanFlag, ScanName, SkipBlanks, CString, StartsNoCase, Literal;
      if file.None? {
        return true;
      }
      categories := [];
      var text := file.value;
      var isInCat, curCat := false, Category("", []);
      var isInCode, curCode := false, Code("", false, []);
      while text != ""
        invariant LoadFrom(Loader(categories, isInCat, curCat, isInCode, curCode), text) == LoadFrom(EMPTY, file.value)
        decreases |text|
      {
        var n := ChunkSize(text, LINE_SIZE);
        var start := SkipBlanks(CString(text[..n]));
        text := text[n..];
        if start == "" || start[0] in "#\r\n" {
          continue;
        }
        if StartsNoCase(start, "CAT") {
          var name := if Literal(start, "CAT") then ScanName(start[3..]) else None;
          if name.None? {
            return false;
          }
          if isInCode {
            curCat := curCat.(codes := curCat.codes + [curCode]);
          }
          isInCode := false;
          if isInCat {
            categories := categories + [curCat];
          }
          isInCat := true;
          curCat := Category(name.value, []);
        } else if StartsNoCase(start, "CODE") {
          var flag := if Literal(start, "CODE") then ScanFlag(start[4..]) else None;
          var name := if flag.Some? then ScanName(flag.value.1) else None;
          if name.None? {
            return false;
          }
          if !isInCat {
            return false;
          }
          if isInCode {
            curCat := curCat.(codes := curCat.codes + [curCode]);
          }
          isInCode := true;
          curCode := Code(name.value, flag.value.0, []);
        } else {
          var first := ScanHex(start);
          var second := if first.Some? then ScanHex(first.value.1) else None;
          if second.None? || !isInCode || |curCode.pairs| >= MAX_PAIRS {
            return false;
          }
          curCode := curCode.(pairs := curCode.pairs + [(first.value.0, second.value.0)]);
        }
      }
      if isInCode {
        curCat := curCat.(codes := curCat.codes + [curCode]);
      }
      if isInCat {
        categories := categories + [curCat];
      }
      ok := true;
    }

    /** The text Save writes. */
    method Save() returns (text: string)
      ensures text == Print(categories)
    {
      hide PrintCategory;
      text := "";
      for i := 0 to |categories|
        invariant text == Print(categories[..i])
      {
        assert categories[..i + 1][..i] == categories[..i];
        if i != 0 {
          text := text + CRLF;
        }
        var t := SaveCategory(categories[i]);
        text := text + t;
      }
      assert categories[..|categories|] == categories;
    }

    method SaveCategory(cat: Category) returns (text: string)
      ensures text == PrintCategory(cat)
    {
      hide PrintCode;
      text := "CAT " + cat.name + CRLF + CRLF;
      for j := 0 to |cat.codes|
        invariant text == "CAT " + cat.name + CRLF + CRLF + PrintCodes(cat.codes[..j])
      {
        assert cat.codes[..j + 1][..j] == cat.codes[..j];
        var t := SaveCode(cat.codes[j]);
        text := text + t;
      }
      assert cat.codes[..|cat.codes|] == cat.codes;
    }

    method SaveCode(code: Code) returns (text: string)
      ensures text == PrintCode(code)
    {
      hide PrintPair;
      text := "CODE " + PrintFlag(code.enabled) + " " + code.name + CRLF;
      for i := 0 to |code.pairs|
        invariant text == "CODE " + PrintFlag(code.enabled) + " " + code.name + CRLF + PrintPairs(code.pairs[..i])
      {
        assert code.pairs[..i + 1][..i] == code.pairs[..i];
        text := text + PrintPair(code.pairs[i]);
      }
      assert code.pairs[..|code.pairs|] == code.pairs;
      text := text + CRLF;
    }
  }

  /** An object that was loaded without error can save its list and another can load it. */
  method Resave(file: string) returns (first: ARCodeFile, second: ARCodeFile)
    ensures first.error == LoadFrom(EMPTY, file).None?
    ensures !first.error ==> !second.error && second.categories == first.categories
  {
    first := new ARCodeFile(Some(file));
    var text := first.Save();
    second := new ARCodeFile(Some(text));
    if !first.error {
      SavedAgainUnchanged(file);
    }
  }
}
