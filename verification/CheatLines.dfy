/** The grammar of the lines of a cheat list, as a line is put together from its parts: the
    parser accepts exactly these lines, and takes from them exactly their parts. */
module CheatLines {
  import opened Options
  import opened CheatFile

  datatype Line = Blank | Cat(name: string) | Head(enabled: bool, name: string) | Pair(first: Word, second: Word)

  predicate Blanks(s: string) { forall c | c in s :: c == ' ' || c == '\t' }

  /** Space, tab, line feed, vertical tab, form feed and carriage return. */
  predicate Space(c: char) { c as int == 32 || 9 <= c as int <= 13 }

  predicate Spaces(s: string) { forall c | c in s :: Space(c) }

  /** A line is its text behind blanks, up to the first NUL. */
  predicate IsText(line: string, blanks: string, s: string, rest: string) {
    && line == blanks + s + rest && Blanks(blanks) && (s == "" || s[0] !in " \t")
    && 0 as char !in blanks + s && (rest == "" || rest[0] == 0 as char)
  }

  /** 1 to 127 characters up to the end of the line, behind spaces. */
  predicate IsName(s: string, spaces: string, name: string, rest: string) {
    && s == spaces + name + rest && Spaces(spaces)
    && 0 < |name| <= 127 && !Space(name[0]) && '\r' !in name && '\n' !in name
    && (|name| == 127 || rest == "" || rest[0] in "\r\n")
  }

  predicate IsSign(s: string) { s == "" || s == "+" || s == "-" }

  /** A decimal number, with an optional sign, behind spaces. */
  predicate IsFlag(s: string, spaces: string, sign: string, digits: string, rest: string) {
    && s == spaces + sign + digits + rest && Spaces(spaces) && IsSign(sign)
    && digits != "" && (forall c | c in digits :: '0' <= c <= '9') && (rest == "" || !('0' <= rest[0] <= '9'))
  }

  predicate IsHexDigit(c: char) { '0' <= c <= '9' || 'A' <= c <= 'F' || 'a' <= c <= 'f' }

  /** At most eight characters of a hexadecimal number, sign and prefix included, behind spaces. */
  predicate IsNumber(s: string, spaces: string, sign: string, prefix: string, digits: string, rest: string) {
    && s == spaces + sign + prefix + digits + rest && Spaces(spaces)
    && IsSign(sign) && (prefix == "" || prefix == "0x" || prefix == "0X")
    && digits != "" && (forall c | c in digits :: IsHexDigit(c))
    && |sign| + |prefix| + |digits| <= 8
    && (|sign| + |prefix| + |digits| == 8 || rest == "" || !IsHexDigit(rest[0]))
    && (prefix == "" && digits == "0" && |rest| > 1 && rest[0] in "xX" ==> !IsHexDigit(rest[1]))
  }

  predicate HasValue(sign: string, digits: string, w: Word)
    requires forall c | c in digits :: IsHex(c)
  {
    var v: int := HexValue(digits);
    w as int == (if sign == "-" then -v else v) % 0x1_0000_0000
  }

  ghost predicate NameIn(s: string, name: string) { exists spaces, rest :: IsName(s, spaces, name, rest) }

  predicate IsFlagOf(s: string, spaces: string, sign: string, digits: string, rest: string, enabled: bool) {
    IsFlag(s, spaces, sign, digits, rest) && (enabled <==> exists c | c in digits :: c != '0')
  }

  ghost predicate FlagIn(s: string, enabled: bool, rest: string) {
    exists spaces, sign, digits :: IsFlagOf(s, spaces, sign, digits, rest, enabled)
  }

  predicate IsDigitsOf(s: string, spaces: string, sign: string, prefix: string, digits: string, rest: string, w: Word) {
    IsNumber(s, spaces, sign, prefix, digits, rest) && (forall c | c in digits :: IsHex(c)) && HasValue(sign, digits, w)
  }

  ghost predicate NumberIn(s: string, w: Word, rest: string) {
    exists spaces, sign, prefix, digits :: IsDigitsOf(s, spaces, sign, prefix, digits, rest, w)
  }

  /** What a text without its leading blanks says. */
  ghost predicate Says(s: string, l: Line) {
    match l
    case Blank => s == "" || s[0] in "#\r\n"
    case Cat(name) => exists t :: s == "CAT" + t && NameIn(t, name)
    case Head(enabled, name) => exists t, u :: s == "CODE" + t && FlagIn(t, enabled, u) && NameIn(u, name)
    case Pair(first, second) =>
      s != "" && s[0] !in "#\r\n" && exists t, rest :: NumberIn(s, first, t) && NumberIn(t, second, rest)
  }

  ghost predicate Reads(line: string, l: Line) {
    exists blanks, s, rest :: IsText(line, blanks, s, rest) && Says(s, l)
  }

  /** What a line does to the list being read: a code outside a category, a pair outside a code
      and the 65th pair of a code are errors. */
  function Apply(st: Loader, l: Line): Option<Loader> {
    match l
    case Blank => Some(st)
    case Cat(name) => Some(Loader(EndCategory(st), true, Category(name, []), false, st.curCode))
    case Head(enabled, name) =>
      if !st.isInCat then None
      else Some(st.(curCat := EndCode(st), isInCode := true, curCode := Code(name, enabled, [])))
    case Pair(first, second) =>
      if !st.isInCode || |st.curCode.pairs| >= 64 then None
      else Some(st.(curCode := st.curCode.(pairs := st.curCode.pairs + [(first, second)])))
  }

  // ---- text

  lemma {:induction false} CStringOf(c: string, rest: string)
    requires NUL !in c && (rest == "" || rest[0] == NUL)
    ensures CString(c + rest) == c
  {
    if c == "" {
      assert c + rest == rest;
    } else {
      assert (c + rest)[1..] == c[1..] + rest;
      CStringOf(c[1..], rest);
    }
  }

  lemma {:induction false} CStringSplit(line: string) returns (rest: string)
    ensures line == CString(line) + rest && NUL !in CString(line) && (rest == "" || rest[0] == NUL)
  {
    if line == "" || line[0] == NUL {
      rest := line;
    } else {
      rest := CStringSplit(line[1..]);
      assert line == [line[0]] + line[1..];
    }
  }

  lemma {:induction false} BlanksBefore(blanks: string, s: string)
    requires Blanks(blanks) && (s == "" || s[0] !in " \t")
    ensures SkipBlanks(blanks + s) == s
  {
    if blanks == "" {
      assert blanks + s == s;
    } else {
      assert (blanks + s)[1..] == blanks[1..] + s && blanks[0] in blanks && forall c | c in blanks[1..] :: c in blanks;
      BlanksBefore(blanks[1..], s);
    }
  }

  lemma {:induction false} BlanksSplit(s: string) returns (blanks: string)
    ensures s == blanks + SkipBlanks(s) && Blanks(blanks) && (SkipBlanks(s) == "" || SkipBlanks(s)[0] !in " \t")
  {
    if s != "" && s[0] in " \t" {
      blanks := BlanksSplit(s[1..]);
      blanks := [s[0]] + blanks;
    } else {
      blanks := "";
    }
  }

  lemma TextOf(line: string, blanks: string, s: string, rest: string)
    requires IsText(line, blanks, s, rest)
    ensures SkipBlanks(CString(line)) == s
  {
    CStringOf(blanks + s, rest);
    BlanksBefore(blanks, s);
  }

  lemma TextSplit(line: string) returns (blanks: string, rest: string)
    ensures IsText(line, blanks, SkipBlanks(CString(line)), rest)
  {
    rest := CStringSplit(line);
    blanks := BlanksSplit(CString(line));
  }

  // ---- fields

  lemma {:induction false} SpacesBefore(spaces: string, s: string)
    requires Spaces(spaces) && (s == "" || !Space(s[0]))
    ensures SkipSpaces(spaces + s) == s
  {
    if spaces == "" {
      assert spaces + s == s;
    } else {
      assert (spaces + s)[1..] == spaces[1..] + s && spaces[0] in spaces && forall c | c in spaces[1..] :: c in spaces;
      SpacesBefore(spaces[1..], s);
    }
  }

  lemma {:induction false} SpacesSplit(s: string) returns (spaces: string)
    ensures s == spaces + SkipSpaces(s) && Spaces(spaces) && (SkipSpaces(s) == "" || !Space(SkipSpaces(s)[0]))
  {
    if s != "" && Space(s[0]) {
      spaces := SpacesSplit(s[1..]);
      spaces := [s[0]] + spaces;
    } else {
      spaces := "";
    }
  }

  lemma {:induction false} NameRun(name: string, rest: string, limit: nat)
    requires |name| <= limit && '\r' !in name && '\n' !in name && (|name| == limit || rest == "" || rest[0] in "\r\n")
    ensures NameSize(name + rest, limit) == |name|
  {
    if name == "" {
      assert name + rest == rest;
    } else {
      assert (name + rest)[1..] == name[1..] + rest;
      NameRun(name[1..], rest, limit - 1);
    }
  }

  lemma {:induction false} NameStops(s: string, limit: nat)
    ensures var n := NameSize(s, limit); n == limit || n == |s| || s[n] in "\r\n"
  {
    if s != "" && limit > 0 && s[0] !in "\r\n" {
      NameStops(s[1..], limit - 1);
    }
  }

  lemma NameExactly(s: string, name: string)
    ensures NameIn(s, name) <==> ScanName(s) == Some(name)
  {
    if spaces, rest :| IsName(s, spaces, name, rest) {
      assert s == spaces + (name + rest);
      SpacesBefore(spaces, name + rest);
      NameRun(name, rest, 127);
      assert (name + rest)[..|name|] == name;
    }
    if ScanName(s) == Some(name) {
      var spaces := SpacesSplit(s);
      var t := SkipSpaces(s);
      NameStops(t, 127);
      assert t == name + t[|name|..];
      assert s == spaces + name + t[|name|..];
      assert IsName(s, spaces, name, t[|name|..]);
    }
  }

  lemma {:induction false} DigitRun(digits: string, rest: string)
    requires (forall c | c in digits :: IsDigit(c)) && (rest == "" || !IsDigit(rest[0]))
    ensures Digits(digits + rest) == |digits|
  {
    if digits == "" {
      assert digits + rest == rest;
    } else {
      assert (digits + rest)[1..] == digits[1..] + rest;
      DigitRun(digits[1..], rest);
    }
  }

  lemma {:induction false} DigitsStop(s: string)
    ensures Digits(s) == |s| || !IsDigit(s[Digits(s)])
  {
    if s != "" && IsDigit(s[0]) {
      DigitsStop(s[1..]);
    }
  }

  /** A sign or none, before something that is none. */
  lemma SignBefore(sign: string, u: string)
    requires IsSign(sign) && u != "" && u[0] !in "+-"
    ensures var t := sign + u; t != "" && (if t[0] in "+-" then sign == t[..1] && t[1..] == u else sign == "" && t == u)
  {
    if sign == "" {
      assert sign + u == u;
    } else {
      assert (sign + u)[1..] == u && (sign + u)[..1] == sign;
    }
  }

  lemma FlagOf(s: string, spaces: string, sign: string, digits: string, rest: string)
    requires IsFlag(s, spaces, sign, digits, rest)
    ensures ScanFlag(s) == Some(((exists c | c in digits :: c != '0'), rest))
  {
    var u := digits + rest;
    assert s == spaces + (sign + u) && u[0] in digits;
    SignBefore(sign, u);
    DigitRun(digits, rest);
    assert u[..|digits|] == digits && u[|digits|..] == rest;
    hide Digits, SkipSpaces, IsSign;
    assert !Space((sign + u)[0]);
    SpacesBefore(spaces, sign + u);
    ScannedFlag(s, sign + u, u, |digits|);
  }

  lemma ScannedFlag(s: string, t: string, u: string, n: nat)
    requires SkipSpaces(s) == t != "" && u == (if t[0] in "+-" then t[1..] else t) && 0 < n == Digits(u)
    ensures ScanFlag(s) == Some(((exists c | c in u[..n] :: c != '0'), u[n..]))
  {
  }

  lemma FlagParts(s: string)
    requires ScanFlag(s).Some?
    ensures var t := SkipSpaces(s);
      var u := if t != "" && t[0] in "+-" then t[1..] else t;
      Digits(u) > 0 && ScanFlag(s).value.1 == u[Digits(u)..]
  {
  }

  /** Taking a sign off. */
  lemma SignSplit(t: string) returns (sign: string)
    ensures IsSign(sign) && t == sign + if t != "" && t[0] in "+-" then t[1..] else t
    ensures t != "" ==> if t[0] in "+-" then sign == t[..1] else sign == ""
  {
    sign := if t != "" && t[0] in "+-" then t[..1] else "";
  }

  lemma DigitsSplit(u: string) returns (digits: string)
    ensures u == digits + u[Digits(u)..] && |digits| == Digits(u) && forall c | c in digits :: '0' <= c <= '9'
    ensures u[Digits(u)..] == "" || !('0' <= u[Digits(u)..][0] <= '9')
  {
    DigitsStop(u);
    digits := u[..Digits(u)];
  }

  lemma Regroup(s: string, a: string, t: string, b: string, u: string, c: string, d: string)
    requires s == a + t && t == b + u && u == c + d
    ensures s == a + b + c + d
  {
    assert a + (b + (c + d)) == a + b + c + d;
  }

  lemma FlagSplit(s: string) returns (spaces: string, sign: string, digits: string)
    requires ScanFlag(s).Some?
    ensures IsFlag(s, spaces, sign, digits, ScanFlag(s).value.1)
  {
    FlagParts(s);
    hide SkipSpaces, Space, ScanFlag, IsSign, Digits, Spaces;
    spaces := SpacesSplit(s);
    var t := SkipSpaces(s);
    sign := SignSplit(t);
    var u := if t != "" && t[0] in "+-" then t[1..] else t;
    digits := DigitsSplit(u);
    Regroup(s, spaces, t, sign, u, digits, u[Digits(u)..]);
  }

  lemma FlagExactly(s: string, enabled: bool, rest: string)
    ensures FlagIn(s, enabled, rest) <==> ScanFlag(s) == Some((enabled, rest))
  {
    if spaces, sign, digits :| IsFlagOf(s, spaces, sign, digits, rest, enabled) {
      FlagOf(s, spaces, sign, digits, rest);
    }
    if ScanFlag(s) == Some((enabled, rest)) {
      var spaces, sign, digits := FlagSplit(s);
      FlagOf(s, spaces, sign, digits, rest);
      assert IsFlagOf(s, spaces, sign, digits, rest, enabled);
    }
  }

  lemma {:induction false} HexStops(s: string, limit: nat)
    ensures var n := HexSize(s, limit); n == limit || n == |s| || !IsHex(s[n])
  {
    if s != "" && limit > 0 && IsHex(s[0]) {
      HexStops(s[1..], limit - 1);
    }
  }

  /** A prefix before digits is seen, and nothing else is taken for one. */
  lemma PrefixBefore(prefix: string, digits: string, rest: string)
    requires (prefix == "" || prefix == "0x" || prefix == "0X") && digits != "" && forall c | c in digits :: IsHex(c)
    requires prefix == "" && digits == "0" && |rest| > 1 && rest[0] in "xX" ==> !IsHexDigit(rest[1])
    ensures var u := prefix + digits + rest;
      && u != "" && u[0] !in "+-" && !Space(u[0])
      && (if IsPrefixed(u) then |prefix| == 2 && u[2..] == digits + rest else prefix == "" && u == digits + rest)
  {
    var u := prefix + digits + rest;
    assert digits[0] in digits;
    if prefix == "" {
      assert u == digits + rest;
      if |digits| > 1 {
        assert digits[1] in digits && u[1] == digits[1];
      } else {
        assert digits == [digits[0]];
      }
    } else {
      assert u == prefix + (digits + rest) && u[2] == digits[0];
    }
  }

  lemma Ungroup(a: string, b: string, c: string, d: string, e: string)
    ensures a + b + c + d + e == a + (b + (c + d + e))
  {
  }

  lemma Joined(s: string, a: string, t: string, b: string, u: string, c: string, v: string, d: string, e: string)
    requires s == a + t && t == b + u && u == c + v && v == d + e
    ensures s == a + b + c + d + e && u == c + d + e
  {
    Ungroup(a, b, c, d, e);
    assert c + (d + e) == c + d + e;
  }

  /** What ScanHex does with the parts. */
  lemma PartsScanned(s: string, t: string, sign: string, u: string, prefix: string, v: string)
    requires SkipSpaces(s) == t != "" && IsSign(sign) && |prefix| == (if IsPrefixed(u) then 2 else 0)
    requires if t[0] in "+-" then sign == t[..1] && t[1..] == u else sign == "" && t == u
    requires v == if IsPrefixed(u) then u[2..] else u
    ensures ScanHex(s) == ScanDigits(v, 8 - |sign| - |prefix|, sign == "-")
  {
    hide ScanDigits, IsPrefixed, SkipSpaces;
  }

  lemma NumberOf(s: string, spaces: string, sign: string, prefix: string, digits: string, rest: string)
    requires IsNumber(s, spaces, sign, prefix, digits, rest) && forall c | c in digits :: IsHex(c)
    ensures ScanHex(s) == Some((Negated(sign == "-", HexValue(digits)), rest))
  {
    hide HexValue, HexSize, SkipSpaces, IsPrefixed, ScanDigits, Negated, ScanHex;
    var u := prefix + digits + rest;
    PrefixBefore(prefix, digits, rest);
    SignBefore(sign, u);
    Scanned(digits, rest, 8 - |sign| - |prefix|, sign == "-");
    Ungroup(spaces, sign, prefix, digits, rest);
    SpacesBefore(spaces, sign + u);
    PartsScanned(s, sign + u, sign, u, prefix, digits + rest);
  }

  lemma Scanned(digits: string, rest: string, limit: nat, negative: bool)
    requires 0 < |digits| <= limit && (forall c | c in digits :: IsHex(c))
    requires |digits| == limit || rest == "" || !IsHex(rest[0])
    ensures ScanDigits(digits + rest, limit, negative) == Some((Negated(negative, HexValue(digits)), rest))
  {
    HexRuns(digits, rest, limit);
    assert (digits + rest)[..|digits|] == digits && (digits + rest)[|digits|..] == rest;
  }

  /** Taking a prefix off. */
  lemma PrefixSplit(u: string) returns (prefix: string)
    ensures (prefix == "" || prefix == "0x" || prefix == "0X") && u == prefix + if IsPrefixed(u) then u[2..] else u
    ensures |prefix| == if IsPrefixed(u) then 2 else 0
  {
    prefix := if IsPrefixed(u) then u[..2] else "";
  }

  lemma HexSplit(v: string, limit: nat, negative: bool) returns (digits: string)
    requires ScanDigits(v, limit, negative).Some?
    ensures var rest := ScanDigits(v, limit, negative).value.1;
      && v == digits + rest && 0 < |digits| <= limit && (forall c | c in digits :: IsHex(c) && IsHexDigit(c))
      && (|digits| == limit || rest == "" || !IsHexDigit(rest[0]))
  {
    HexStops(v, limit);
    digits := v[..HexSize(v, limit)];
  }

  lemma NotEmpty(s: string)
    ensures ScanHex(s).Some? ==> SkipSpaces(s) != ""
  {
  }

  lemma NumberSplit(s: string) returns (spaces: string, sign: string, prefix: string, digits: string)
    requires ScanHex(s).Some?
    ensures IsNumber(s, spaces, sign, prefix, digits, ScanHex(s).value.1) && forall c | c in digits :: IsHex(c)
  {
    hide SkipSpaces, Space, Spaces, ScanDigits, IsHex, IsHexDigit, IsPrefixed, IsSign, ScanHex;
    spaces := SpacesSplit(s);
    var t := SkipSpaces(s);
    sign := SignSplit(t);
    var u := if t != "" && t[0] in "+-" then t[1..] else t;
    prefix := PrefixSplit(u);
    var v := if IsPrefixed(u) then u[2..] else u;
    NotEmpty(s);
    PartsScanned(s, t, sign, u, prefix, v);
    digits := HexSplit(v, 8 - |sign| - |prefix|, sign == "-");
    var rest := ScanHex(s).value.1;
    Joined(s, spaces, t, sign, u, prefix, v, digits, rest);
    NotPrefixed(u, prefix, digits, rest);
  }

  lemma NotPrefixed(u: string, prefix: string, digits: string, rest: string)
    requires u == prefix + digits + rest && (prefix == "" ==> !IsPrefixed(u))
    ensures prefix == "" && digits == "0" && |rest| > 1 && rest[0] in "xX" ==> !IsHexDigit(rest[1])
  {
    if prefix == "" && digits == "0" && |rest| > 1 {
      assert u[1] == rest[0] && u[2] == rest[1];
    }
  }

  lemma NumberExactly(s: string, w: Word, rest: string)
    ensures NumberIn(s, w, rest) <==> ScanHex(s) == Some((w, rest))
  {
    hide HexValue, IsHex, ScanHex, IsNumber;
    if spaces, sign, prefix, digits :| IsDigitsOf(s, spaces, sign, prefix, digits, rest, w) {
      NumberOf(s, spaces, sign, prefix, digits, rest);
    }
    if ScanHex(s) == Some((w, rest)) {
      var spaces, sign, prefix, digits := NumberSplit(s);
      NumberOf(s, spaces, sign, prefix, digits, rest);
      assert IsDigitsOf(s, spaces, sign, prefix, digits, rest, w);
    }
  }

  // ---- lines

  lemma NoNumberAt(s: string)
    requires s != "" && s[0] in "OTot"
    ensures ScanHex(s) == None
  {
  }

  /** A keyword begins with digits but does not hold two numbers. */
  lemma KeywordIsNoPair(s: string)
    requires StartsNoCase(s, "CAT") || StartsNoCase(s, "CODE")
    ensures ScanHex(s).Some? ==> ScanHex(ScanHex(s).value.1) == None
  {
    var n := if StartsNoCase(s, "CAT") then 2 else 1;
    KeywordLetters(s);
    KeywordDigits(s, n);
    assert ScanHex(s).Some? ==> ScanHex(s).value.1 == s[n..] by {
      hide HexValue, HexSize, Negated;
    }
    hide ScanHex;
    NoNumberAt(s[n..]);
  }

  lemma KeywordLetters(s: string)
    requires StartsNoCase(s, "CAT") || StartsNoCase(s, "CODE")
    ensures s[0] in "Cc" && if StartsNoCase(s, "CAT") then s[1] in "Aa" && s[2] in "Tt" else s[1] in "Oo"
  {
    if StartsNoCase(s, "CAT") {
      assert Upper(s[0]) == "CAT"[0] && Upper(s[1]) == "CAT"[1] && Upper(s[2]) == "CAT"[2];
    } else {
      assert Upper(s[0]) == "CODE"[0] && Upper(s[1]) == "CODE"[1];
    }
  }

  lemma KeywordDigits(s: string, n: nat)
    requires 0 < n <= 2 < |s| && s[0] in "Cc" && (n == 2 ==> s[1] in "Aa") && s[n] in "OoTt"
    ensures HexSize(s, 8) == n
  {
    assert HexSize(s[n..], 8 - n) == 0;
    assert HexSize(s[1..], 7) == n - 1 by {
      assert n == 2 ==> s[1..][1..] == s[2..];
    }
  }

  lemma SaysCat(s: string, t: string)
    requires s == "CAT" + t
    ensures StartsNoCase(s, "CAT") && Literal(s, "CAT") && s[3..] == t && s[0] == 'C'
  {
    assert forall i | 0 <= i < 3 :: s[i] == "CAT"[i];
  }

  lemma SaysCode(s: string, t: string)
    requires s == "CODE" + t
    ensures StartsNoCase(s, "CODE") && Literal(s, "CODE") && !StartsNoCase(s, "CAT") && s[4..] == t && s[0] == 'C'
  {
    assert forall i | 0 <= i < 4 :: s[i] == "CODE"[i];
    assert s[1] == 'O' && Upper('O') != Upper('A') && "CAT"[1] == 'A';
  }

  lemma FeedSays(st: Loader, line: string, l: Line)
    requires Says(SkipBlanks(CString(line)), l)
    ensures Feed(st, line) == Apply(st, l)
  {
    hide ScanHex, ScanFlag, ScanName, StartsNoCase, NameIn, FlagIn, NumberIn, SkipBlanks, CString;
    var s := SkipBlanks(CString(line));
    match l {
      case Blank =>
      case Cat(name) =>
        var t :| s == "CAT" + t && NameIn(t, name);
        SaysCat(s, t);
        NameExactly(t, name);
      case Head(enabled, name) =>
        var t, u :| s == "CODE" + t && FlagIn(t, enabled, u) && NameIn(u, name);
        SaysCode(s, t);
        FlagExactly(t, enabled, u);
        NameExactly(u, name);
      case Pair(first, second) =>
        var t, rest :| NumberIn(s, first, t) && NumberIn(t, second, rest);
        NumberExactly(s, first, t);
        NumberExactly(t, second, rest);
        if StartsNoCase(s, "CAT") || StartsNoCase(s, "CODE") {
          KeywordIsNoPair(s);
        }
    }
  }

  lemma FeedFinds(st: Loader, line: string) returns (l: Line)
    requires Feed(st, line).Some?
    ensures Says(SkipBlanks(CString(line)), l)
  {
    hide ScanHex, ScanFlag, ScanName, StartsNoCase, NameIn, FlagIn, NumberIn, SkipBlanks, CString;
    var s := SkipBlanks(CString(line));
    if s == "" || s[0] in "#\r\n" {
      l := Blank;
    } else if StartsNoCase(s, "CAT") {
      var name := ScanName(s[3..]).value;
      NameExactly(s[3..], name);
      assert s == "CAT" + s[3..];
      l := Cat(name);
    } else if StartsNoCase(s, "CODE") {
      var (enabled, u) := ScanFlag(s[4..]).value;
      var name := ScanName(u).value;
      FlagExactly(s[4..], enabled, u);
      NameExactly(u, name);
      assert s == "CODE" + s[4..];
      l := Head(enabled, name);
    } else {
      var (first, t) := ScanHex(s).value;
      var (second, rest) := ScanHex(t).value;
      NumberExactly(s, first, t);
      NumberExactly(t, second, rest);
      l := Pair(first, second);
    }
  }

  /** A line is accepted if and only if it reads as one of the four kinds, and does what that kind
      does. */
  lemma FeedExactly(st: Loader, line: string, next: Loader)
    ensures Feed(st, line) == Some(next) <==> exists l :: Reads(line, l) && Apply(st, l) == Some(next)
  {
    hide Feed, Says, SkipBlanks, CString, Apply;
    if l :| Reads(line, l) && Apply(st, l) == Some(next) {
      var blanks, s, rest :| IsText(line, blanks, s, rest) && Says(s, l);
      TextOf(line, blanks, s, rest);
      FeedSays(st, line, l);
    }
    if Feed(st, line) == Some(next) {
      var l := FeedFinds(st, line);
      FeedSays(st, line, l);
      var blanks, rest := TextSplit(line);
      assert Reads(line, l);
    }
  }

  /** What one call of fgets takes: up to a line feed, to 1023 characters or to the end. */
  predicate IsChunk(text: string, n: nat, limit: nat) {
    && 0 < n <= |text| && n <= limit && (forall i | 0 <= i < n - 1 :: text[i] != '\n')
    && (text[n - 1] == '\n' || n == limit || n == |text|)
  }

  lemma {:induction false} ChunkExactly(text: string, n: nat, limit: nat)
    requires text != "" && limit > 0
    ensures IsChunk(text, n, limit) <==> n == ChunkSize(text, limit)
  {
    if text[0] == '\n' {
      assert IsChunk(text, n, limit) ==> n == 1;
    } else if |text| == 1 || limit == 1 {
      assert ChunkSize(text[1..], limit - 1) == 0;
    } else if n > 0 {
      ChunkExactly(text[1..], n - 1, limit - 1);
      assert IsChunk(text, n, limit) <==> IsChunk(text[1..], n - 1, limit - 1);
    }
  }

  /** A file is read chunk by chunk, each as one line. */
  lemma LoadExactly(st: Loader, text: string, n: nat, cats: seq<Category>)
    requires IsChunk(text, n, 1023)
    ensures LoadFrom(st, text) == Some(cats) <==>
      exists l, next :: Reads(text[..n], l) && Apply(st, l) == Some(next) && LoadFrom(next, text[n..]) == Some(cats)
  {
    hide Feed, Reads, Apply, ChunkSize;
    ChunkExactly(text, n, 1023);
    if l, next :| Reads(text[..n], l) && Apply(st, l) == Some(next) && LoadFrom(next, text[n..]) == Some(cats) {
      FeedExactly(st, text[..n], next);
    }
    if LoadFrom(st, text) == Some(cats) {
      var next := Feed(st, text[..n]).value;
      FeedExactly(st, text[..n], next);
    }
  }
}
