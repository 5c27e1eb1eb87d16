/** Key predicates: the text by which an edit names the list entry next to which a new
    entry goes. Strings hold no NUL. */
module KeyPredicate {
  import opened Xml
  import opened Sequences

  datatype Predicate =
    | Expr(prefix: Option<string>, name: string, value: string)
    | Position(n: int)

  /** Unterminated stands for a value without closing quote, for which the parser has no
      bound. */
  datatype Parse = Parsed(p: Predicate) | Invalid | Unterminated

  predicate Blank(c: char) {
    c == ' ' || c == '\t'
  }

  predicate Quote(c: char) {
    c == '"' || c == '\''
  }

  function SkipBlanks(s: string): string {
    if s != "" && Blank(s[0]) then SkipBlanks(s[1..]) else s
  }

  /** Drops blanks at the end, but never the first character. */
  function TrimEnd(s: string): string {
    if |s| > 1 && Blank(s[|s| - 1]) then TrimEnd(s[..|s| - 1]) else s
  }

  predicate Space(c: char) {
    Blank(c) || c == '\n' || c == '\r' || c == 11 as char || c == 12 as char
  }

  function SkipSpaces(s: string): string {
    if s != "" && Space(s[0]) then SkipSpaces(s[1..]) else s
  }

  /** The number that the leading digits denote. */
  function Digits(s: string, n: int): int {
    if s != "" && '0' <= s[0] <= '9' then Digits(s[1..], 10 * n + (s[0] - '0') as int) else n
  }

  function Atoi(s: string): int {
    var t := SkipSpaces(s);
    if t != "" && t[0] == '-' then -Digits(t[1..], 0)
    else if t != "" && t[0] == '+' then Digits(t[1..], 0)
    else Digits(t, 0)
  }

  /** Where the first quote is; the length of s if there is none. */
  function FindQuote(s: string): (i: nat)
    ensures i <= |s| && (i < |s| ==> Quote(s[i])) && forall j :: 0 <= j < i ==> !Quote(s[j])
  {
    if s == "" || Quote(s[0]) then 0 else 1 + FindQuote(s[1..])
  }

  /** What stands before the equals sign, split at the first colon. */
  function SplitName(s: string): (Option<string>, string) {
    var c := IndexOf(s, ':');
    if c < |s| then (Some(s[..c]), s[c + 1..]) else (None, s)
  }

  /** One predicate, without its closing bracket. */
  function ParsePredicate(s: string): Parse {
    var open := SkipBlanks(s);
    if open == "" || open[0] != '[' then Invalid
    else
      var body := SkipBlanks(open[1..]);
      var e := IndexOf(body, '=');
      if e == |body| then
        if Atoi(body) == 0 || Atoi(body) == -1 then Invalid else Parsed(Position(Atoi(body)))
      else if e == 0 then Invalid
      else
        var (prefix, name) := SplitName(TrimEnd(body[..e]));
        ParseValue(prefix, name, SkipBlanks(body[e + 1..]))
  }

  function ParseValue(prefix: Option<string>, name: string, s: string): Parse {
    if s == "" || !Quote(s[0]) then Invalid
    else
      var q := FindQuote(s[1..]);
      if q == |s| - 1 then Unterminated else Parsed(Expr(prefix, name, s[1..][..q]))
  }

  /** Scans one predicate character by character. */
  method ParseInstancePredicate(s: string) returns (r: Parse)
    ensures r == ParsePredicate(s)
  {
    hide TrimEnd, SplitName, Atoi, IndexOf, ParseValue, SkipBlanks;
    var i := SkipBlanksFrom(s, 0);
    assert s[0..] == s;
    if i == |s| || s[i] != '[' {
      return Invalid;
    }
    assert s[i..][1..] == s[i + 1..];
    i := SkipBlanksFrom(s, i + 1);
    ghost var body := s[i..];
    var e := Scan(s, i);
    if e == |s| {
      var n := Atoi(s[i..]);
      return if n == 0 || n == -1 then Invalid else Parsed(Position(n));
    }
    if e == i {
      return Invalid;
    }
    assert body[..e - i] == s[i..e] && body[e - i + 1..] == s[e + 1..];
    var name := TrimName(s, i, e);
    var (prefix, local) := SplitName(name);
    r := ScanValue(prefix, local, s, e + 1);
  }

  /** Looks for the equals sign. */
  method Scan(s: string, i: nat) returns (e: nat)
    requires i <= |s|
    ensures i <= e <= |s| && e - i == IndexOf(s[i..], '=')
  {
    hide IndexOf;
    e := i;
    while e < |s| && s[e] != '='
      invariant i <= e <= |s|
      invariant forall k :: i <= k < e ==> s[k] != '='
    {
      e := e + 1;
    }
    FirstIs(s[i..], '=', e - i);
  }

  method TrimName(s: string, i: nat, e: nat) returns (name: string)
    requires i < e <= |s|
    ensures name == TrimEnd(s[i..e])
  {
    hide TrimEnd;
    var j := e;
    while j > i + 1 && Blank(s[j - 1])
      invariant i < j <= e
      invariant TrimEnd(s[i..e]) == TrimEnd(s[i..j])
    {
      TrimStep(s[i..j]);
      assert s[i..j][..j - i - 1] == s[i..j - 1];
      j := j - 1;
    }
    TrimStep(s[i..j]);
    name := s[i..j];
  }

  method ScanValue(prefix: Option<string>, name: string, s: string, i: nat) returns (r: Parse)
    requires i <= |s|
    ensures r == ParseValue(prefix, name, SkipBlanks(s[i..]))
  {
    hide SkipBlanks;
    var j := SkipBlanksFrom(s, i);
    if j == |s| || !Quote(s[j]) {
      return Invalid;
    }
    j := j + 1;
    var q := j;
    while q < |s| && !Quote(s[q])
      invariant j <= q <= |s|
      invariant forall k :: j <= k < q ==> !Quote(s[k])
    {
      q := q + 1;
    }
    assert s[j - 1..][1..] == s[j..];
    QuoteIs(s[j..], q - j);
    if q == |s| {
      return Unterminated;
    }
    assert s[j..][..q - j] == s[j..q];
    return Parsed(Expr(prefix, name, s[j..q]));
  }

  method SkipBlanksFrom(s: string, start: nat) returns (i: nat)
    requires start <= |s|
    ensures start <= i <= |s| && s[i..] == SkipBlanks(s[start..])
  {
    i := start;
    while i < |s| && Blank(s[i])
      invariant start <= i <= |s|
      invariant SkipBlanks(s[start..]) == SkipBlanks(s[i..])
    {
      assert s[i..][1..] == s[i + 1..];
      i := i + 1;
    }
  }

  lemma FirstIs(s: string, c: char, i: nat)
    requires i <= |s| && (i < |s| ==> s[i] == c) && forall k :: 0 <= k < i ==> s[k] != c
    ensures IndexOf(s, c) == i
  {
  }

  lemma QuoteIs(s: string, i: nat)
    requires i <= |s| && (i < |s| ==> Quote(s[i])) && forall k :: 0 <= k < i ==> !Quote(s[k])
    ensures FindQuote(s) == i
  {
  }

  lemma TrimStep(s: string)
    ensures TrimEnd(s) == if |s| > 1 && Blank(s[|s| - 1]) then TrimEnd(s[..|s| - 1]) else s
  {
  }

  /** The pieces between closing brackets, empty ones left out. */
  function Tokens(s: string): seq<string>
    decreases |s|
  {
    if s == "" then []
    else if s[0] == ']' then Tokens(s[1..])
    else
      var i := IndexOf(s, ']');
      [s[..i]] + Tokens(s[i..])
  }

  function Count(s: string, c: char): nat {
    if s == "" then 0 else (if s[0] == c then 1 else 0) + Count(s[1..], c)
  }

  /** The predicates of a reference: as many pieces as there are opening brackets. */
  function ParseAll(s: string): seq<Parse> {
    var t := Tokens(s);
    ParseEach(if Count(s, '[') < |t| then t[..Count(s, '[')] else t)
  }

  function ParseEach(t: seq<string>): (r: seq<Parse>)
    ensures |r| == |t|
  {
    if t == [] then [] else [ParsePredicate(t[0])] + ParseEach(t[1..])
  }

  // ---- printing

  function Print(p: Predicate): string
    requires p.Expr?
  {
    PrintOpen(p) + "]"
  }

  function PrintOpen(p: Predicate): string
    requires p.Expr?
  {
    "[" + PrintName(p) + "='" + p.value + "'"
  }

  function PrintName(p: Predicate): string
    requires p.Expr?
  {
    if p.prefix.Some? then p.prefix.value + ":" + p.name else p.name
  }

  function PrintAll(ps: seq<Predicate>): string
    requires AllPrintable(ps)
  {
    if ps == [] then "" else Print(ps[0]) + PrintAll(ps[1..])
  }

  predicate NameText(s: string) {
    forall i :: 0 <= i < |s| ==> s[i] !in "[]=: \t"
  }

  predicate ValueText(s: string) {
    forall i :: 0 <= i < |s| ==> s[i] !in "[]\"'"
  }

  /** Names are not empty and hold no bracket, equals sign, colon or blank; values hold no
      bracket or quote. */
  predicate Printable(p: Predicate) {
    p.Expr? && p.name != "" && NameText(p.name) && ValueText(p.value) &&
    (p.prefix.Some? ==> p.prefix.value != "" && NameText(p.prefix.value))
  }

  predicate AllPrintable(ps: seq<Predicate>) {
    forall i :: 0 <= i < |ps| ==> Printable(ps[i])
  }

  /** Parsing inverts printing, for one predicate. */
  lemma ParsePrinted(p: Predicate)
    requires p.Expr? && Printable(p)
    ensures ParsePredicate(PrintOpen(p)) == Parsed(p)
  {
    hide TrimEnd, SplitName, Atoi, IndexOf, ParseValue, PrintName, Printable, ParsePredicate, SkipBlanks;
    var name, rest := PrintName(p), "'" + p.value + "'";
    var body := name + "=" + rest;
    assert PrintOpen(p) == "[" + body;
    SplitPrinted(p);
    TrimStep(name);
    ValuePrinted(p);
    ParseParts(name, rest);
  }

  /** What a bracket, a name, an equals sign and the rest are taken apart into. */
  lemma ParseParts(name: string, rest: string)
    requires name != "" && !Blank(name[0]) && '=' !in name
    ensures ParsePredicate("[" + (name + "=" + rest)) ==
      var (prefix, n) := SplitName(TrimEnd(name)); ParseValue(prefix, n, SkipBlanks(rest))
  {
    hide TrimEnd, SplitName, Atoi, IndexOf, ParseValue;
    var body := name + "=" + rest;
    assert ("[" + body)[1..] == body;
    assert SkipBlanks(body) == body && SkipBlanks("[" + body) == "[" + body;
    FirstIs(body, '=', |name|);
    assert body[..|name|] == name && body[|name| + 1..] == rest;
  }

  lemma ValuePrinted(p: Predicate)
    requires Printable(p)
    ensures ParseValue(p.prefix, p.name, SkipBlanks("'" + p.value + "'")) == Parsed(p)
  {
    var rest := "'" + p.value + "'";
    assert rest[1..] == p.value + "'";
    QuoteIs(rest[1..], |p.value|);
    assert rest[1..][..|p.value|] == p.value;
  }

  lemma SplitPrinted(p: Predicate)
    requires Printable(p)
    ensures SplitName(PrintName(p)) == (p.prefix, p.name)
    ensures PrintName(p) != "" && !Blank(PrintName(p)[0]) && !Blank(PrintName(p)[|PrintName(p)| - 1])
    ensures forall i :: 0 <= i < |PrintName(p)| ==> PrintName(p)[i] !in "[]= \t"
  {
    var name := PrintName(p);
    if p.prefix.Some? {
      FirstIs(name, ':', |p.prefix.value|);
      assert name[..|p.prefix.value|] == p.prefix.value && name[|p.prefix.value| + 1..] == p.name;
    } else {
      FirstIs(name, ':', |name|);
    }
  }

  lemma {:induction false} CountConcat(s: string, t: string, c: char)
    ensures Count(s + t, c) == Count(s, c) + Count(t, c)
  {
    if s == "" {
      assert s + t == t;
    } else {
      assert (s + t)[1..] == s[1..] + t;
      CountConcat(s[1..], t, c);
    }
  }

  lemma {:induction false} CountNone(s: string, c: char)
    requires c !in s
    ensures Count(s, c) == 0
  {
    if s != "" {
      CountNone(s[1..], c);
    }
  }

  lemma PrintedBrackets(p: Predicate)
    requires Printable(p)
    ensures ']' !in PrintOpen(p) && Count(Print(p), '[') == 1
  {
    hide Count, PrintName;
    SplitPrinted(p);
    var rest := PrintName(p) + "='" + p.value + "'" + "]";
    assert Print(p) == "[" + rest;
    CountConcat("[", rest, '[');
    CountNone(rest, '[');
    assert Count("[", '[') == 1 by {
      CountOne();
    }
  }

  lemma CountOne()
    ensures Count("[", '[') == 1
  {
  }

  lemma {:induction false} PrintedTokens(ps: seq<Predicate>)
    requires AllPrintable(ps)
    ensures |Tokens(PrintAll(ps))| == |ps| && Count(PrintAll(ps), '[') == |ps|
    ensures forall i :: 0 <= i < |ps| ==> Tokens(PrintAll(ps))[i] == PrintOpen(ps[i])
    decreases ps
  {
    hide Count, PrintOpen, IndexOf;
    if ps != [] {
      var open, rest := PrintOpen(ps[0]), PrintAll(ps[1..]);
      PrintedTokens(ps[1..]);
      PrintedBrackets(ps[0]);
      CountConcat(Print(ps[0]), rest, '[');
      var all := PrintAll(ps);
      assert all == open + ("]" + rest);
      OpenNotEmpty(ps[0]);
      FirstIs(all, ']', |open|);
      assert all[..|open|] == open && all[|open|..] == "]" + rest && all[|open|..][1..] == rest;
      assert Tokens(all) == [open] + Tokens(all[|open|..]);
      assert Tokens(all[|open|..]) == Tokens(rest);
    } else {
      EmptyCount();
    }
  }

  lemma OpenNotEmpty(p: Predicate)
    requires p.Expr?
    ensures PrintOpen(p) != "" && PrintOpen(p)[0] == '['
  {
  }

  lemma EmptyCount()
    ensures Count("", '[') == 0
  {
  }

  lemma {:induction false} ParseEachAt(t: seq<string>, i: nat)
    requires i < |t|
    ensures ParseEach(t)[i] == ParsePredicate(t[i])
    decreases t
  {
    hide ParsePredicate;
    if i > 0 {
      ParseEachAt(t[1..], i - 1);
    }
  }

  /** Parsing inverts printing: a printed sequence of predicates is read back unchanged. */
  lemma ParseInvertsPrint(ps: seq<Predicate>)
    requires AllPrintable(ps)
    ensures |ParseAll(PrintAll(ps))| == |ps|
    ensures forall i :: 0 <= i < |ps| ==> ParseAll(PrintAll(ps))[i] == Parsed(ps[i])
  {
    hide ParsePredicate, ParseEach, Tokens, Count, PrintAll, PrintOpen;
    PrintedTokens(ps);
    var t := Tokens(PrintAll(ps));
    forall i | 0 <= i < |ps|
      ensures ParseEach(t)[i] == Parsed(ps[i])
    {
      ParseEachAt(t, i);
      ParsePrinted(ps[i]);
    }
  }

  // ---- blanks, quotes and positions

  predicate Only(s: string, chars: string) {
    forall i :: 0 <= i < |s| ==> s[i] in chars
  }

  lemma {:induction false} BlanksSkipped(b: string, s: string)
    requires Only(b, " \t")
    ensures SkipBlanks(b + s) == SkipBlanks(s)
    decreases b
  {
    if b == "" {
      assert b + s == s;
    } else {
      assert (b + s)[1..] == b[1..] + s;
      BlanksSkipped(b[1..], s);
    }
  }

  lemma NoBlankAhead(s: string)
    requires s == "" || s[0] !in " \t"
    ensures SkipBlanks(s) == s
  {
  }

  lemma {:induction false} BlanksTrimmed(name: string, b: string)
    requires name != "" && name[|name| - 1] !in " \t" && Only(b, " \t")
    ensures TrimEnd(name + b) == name
    decreases b
  {
    if b == "" {
      assert name + b == name;
    } else {
      var s := name + b;
      assert s[..|s| - 1] == name + b[..|b| - 1];
      BlanksTrimmed(name, b[..|b| - 1]);
    }
  }

  /** A predicate may have blanks and tabs ahead, behind the bracket and around the equals
      sign, and its value may be in quotes of either kind. */
  lemma ParseSpaced(p: Predicate, b0: string, b1: string, b2: string, b3: string, quote: char)
    requires p.Expr? && Printable(p) && quote in "\"'"
    requires Only(b0, " \t") && Only(b1, " \t") && Only(b2, " \t") && Only(b3, " \t")
    ensures var name := match p.prefix case None => p.name case Some(x) => x + ":" + p.name;
      ParsePredicate(b0 + "[" + b1 + name + b2 + "=" + b3 + [quote] + p.value + [quote]) == Parsed(p)
  {
    hide TrimEnd, SplitName, Atoi, IndexOf, ParseValue, PrintName, Printable, SkipBlanks, ParsePredicate, Only;
    var name, rest := PrintName(p), [quote] + p.value + [quote];
    NameIsPrinted(p);
    SplitPrinted(p);
    NoEquals(name, b2);
    Joined(b0, b1, name, b2, b3, [quote], p.value);
    SpacedParts(b0, b1, name + b2, b3 + rest);
    BlanksTrimmed(name, b2);
    BlanksSkipped(b3, rest);
    NoBlankAhead(rest);
    QuotedValue(p, quote);
  }

  lemma NoEquals(name: string, b: string)
    requires Only(b, " \t") && '=' !in name
    ensures '=' !in name + b
  {
  }

  lemma Joined(b0: string, b1: string, name: string, b2: string, b3: string, quote: string, value: string)
    ensures b0 + "[" + b1 + name + b2 + "=" + b3 + quote + value + quote ==
      b0 + ("[" + (b1 + ((name + b2) + "=" + (b3 + (quote + value + quote)))))
  {
    assert name + b2 + "=" + b3 + quote + value + quote == (name + b2) + "=" + (b3 + (quote + value + quote));
  }

  /** What a piece is taken apart into, with blanks ahead and behind the bracket. */
  lemma SpacedParts(b0: string, b1: string, name: string, rest: string)
    requires Only(b0, " \t") && Only(b1, " \t") && name != "" && name[0] !in " \t" && '=' !in name
    ensures ParsePredicate(b0 + ("[" + (b1 + (name + "=" + rest)))) ==
      var (prefix, n) := SplitName(TrimEnd(name)); ParseValue(prefix, n, SkipBlanks(rest))
  {
    hide TrimEnd, SplitName, Atoi, IndexOf, ParseValue, SkipBlanks;
    var body := name + "=" + rest;
    var s := "[" + (b1 + body);
    BlanksSkipped(b0, s);
    NoBlankAhead(s);
    assert s[1..] == b1 + body;
    BlanksSkipped(b1, body);
    NoBlankAhead(body);
    FirstIs(body, '=', |name|);
    assert body[..|name|] == name && body[|name| + 1..] == rest;
  }

  lemma NameIsPrinted(p: Predicate)
    requires p.Expr?
    ensures PrintName(p) == match p.prefix case None => p.name case Some(x) => x + ":" + p.name
  {
  }

  lemma QuotedValue(p: Predicate, quote: char)
    requires Printable(p) && quote in "\"'"
    ensures ParseValue(p.prefix, p.name, [quote] + p.value + [quote]) == Parsed(p)
  {
    var rest := [quote] + p.value + [quote];
    assert rest[1..] == p.value + [quote];
    QuoteIs(rest[1..], |p.value|);
    assert rest[1..][..|p.value|] == p.value;
  }

  /** Decimal notation. */
  function Decimal(n: nat): string {
    (if n < 10 then "" else Decimal(n / 10)) + ["0123456789"[n % 10]]
  }

  lemma {:induction false} DecimalRead(n: nat, t: string)
    ensures Digits(Decimal(n) + t, 0) == Digits(t, n)
    ensures Decimal(n) != "" && '0' <= Decimal(n)[0] <= '9' && '=' !in Decimal(n)
    decreases n
  {
    hide Decimal, Digits;
    var c := "0123456789"[n % 10];
    DecimalStep(n);
    DigitRead(n % 10, t, n / 10);
    if n >= 10 {
      DecimalRead(n / 10, [c] + t);
      LastDigit(Decimal(n / 10), c, t);
    } else {
      assert "" + [c] == [c];
    }
  }

  lemma DecimalStep(n: nat)
    ensures Decimal(n) == (if n < 10 then "" else Decimal(n / 10)) + ["0123456789"[n % 10]]
  {
  }

  lemma LastDigit(s: string, c: char, t: string)
    requires s != "" && '=' !in s && c != '='
    ensures (s + [c]) + t == s + ([c] + t) && (s + [c])[0] == s[0] && '=' !in s + [c]
  {
  }

  lemma DigitRead(d: nat, t: string, n: nat)
    requires d < 10
    ensures var c := "0123456789"[d];
      '0' <= c <= '9' && c != '=' && Digits([c] + t, n) == Digits(t, 10 * n + d)
  {
    var c := "0123456789"[d];
    assert ([c] + t)[1..] == t && (c - '0') as int == d;
  }

  lemma {:induction false} SpacesSkipped(w: string, s: string)
    requires Only(w, " \t\n\r" + [11 as char, 12 as char]) && s != "" && !Space(s[0])
    ensures SkipSpaces(w + s) == s
    decreases w
  {
    if w == "" {
      assert w + s == s;
    } else {
      assert (w + s)[1..] == w[1..] + s;
      SpacesSkipped(w[1..], s);
    }
  }

  function Signed(sign: string, n: int): int {
    if sign == "-" then -n else n
  }

  lemma NumberRead(w: string, sign: string, n: nat, rest: string)
    requires Only(w, " \t\n\r" + [11 as char, 12 as char]) && sign in ["", "+", "-"]
    requires rest == "" || !('0' <= rest[0] <= '9')
    ensures Atoi(w + sign + Decimal(n) + rest) == Signed(sign, n)
  {
    hide Decimal, SkipSpaces;
    var t := sign + (Decimal(n) + rest);
    assert w + sign + Decimal(n) + rest == w + t;
    DecimalRead(n, rest);
    SpacesSkipped(w, t);
    assert Digits(rest, n) == n;
    if sign == "" {
      assert t == Decimal(n) + rest;
    } else {
      assert t[1..] == Decimal(n) + rest;
    }
  }

  /** A piece without equals sign is a position: the number it begins with, behind white
      space and a sign, in decimal notation. Zero and minus one are no positions. */
  lemma ParsePosition(b0: string, b1: string, w: string, sign: string, n: nat, rest: string)
    requires Only(b0, " \t") && Only(b1, " \t") && Only(w, " \t\n\r" + [11 as char, 12 as char])
    requires w == "" || w[0] !in " \t"
    requires sign in ["", "+", "-"] && '=' !in rest && (rest == "" || !('0' <= rest[0] <= '9'))
    ensures var v := Signed(sign, n);
      ParsePredicate(b0 + "[" + b1 + w + sign + Decimal(n) + rest) ==
        if v == 0 || v == -1 then Invalid else Parsed(Position(v))
  {
    hide Decimal, SkipSpaces, SkipBlanks, Atoi, IndexOf, TrimEnd, SplitName, ParseValue;
    var body := w + sign + Decimal(n) + rest;
    var s := "[" + (b1 + body);
    assert b0 + "[" + b1 + w + sign + Decimal(n) + rest == b0 + s;
    BlanksSkipped(b0, s);
    NoBlankAhead(s);
    assert s[1..] == b1 + body;
    BlanksSkipped(b1, body);
    DecimalRead(n, rest);
    HeadOf(w, sign, Decimal(n), rest);
    NoBlankAhead(body);
    FirstIs(body, '=', |body|);
    NumberRead(w, sign, n, rest);
  }

  lemma HeadOf(w: string, sign: string, digits: string, rest: string)
    requires digits != "" && sign in ["", "+", "-"]
    ensures (w + sign + digits + rest)[0] == if w != "" then w[0] else if sign != "" then sign[0] else digits[0]
  {
  }

  // ---- what is in error

  /** Pieces that cannot be read: without bracket, with the equals sign first, with a value
      that is not in quotes, and with a value whose quote is not closed. */
  lemma PieceInError(b0: string, b1: string, name: string, b3: string, rest: string, quote: char, value: string)
    requires Only(b0, " \t") && Only(b1, " \t") && Only(b3, " \t") && name != "" && name[0] !in " \t" && '=' !in name
    requires quote in "\"'" && '"' !in value && '\'' !in value
    ensures rest == "" || rest[0] !in "[ \t" ==> ParsePredicate(b0 + rest) == Invalid
    ensures ParsePredicate(b0 + ("[" + (b1 + ("=" + rest)))) == Invalid
    ensures rest == "" || rest[0] !in "\"' \t" ==>
      ParsePredicate(b0 + ("[" + (b1 + (name + "=" + (b3 + rest))))) == Invalid
    ensures ParsePredicate(b0 + ("[" + (b1 + (name + "=" + (b3 + ([quote] + value)))))) == Unterminated
  {
    hide TrimEnd, SplitName, Atoi, IndexOf, SkipBlanks, Only, ParsePredicate, ParseValue;
    if rest == "" || rest[0] !in "[ \t" {
      BlanksSkipped(b0, rest);
      NoBlankAhead(rest);
      NoBracket(b0 + rest, rest);
    }
    EqualsFirst(b0, b1, rest);
    SpacedParts(b0, b1, name, b3 + rest);
    BlanksSkipped(b3, rest);
    if rest == "" || rest[0] !in "\"' \t" {
      NoBlankAhead(rest);
      NoQuote(SplitName(TrimEnd(name)).0, SplitName(TrimEnd(name)).1, rest);
    }
    var open := [quote] + value;
    SpacedParts(b0, b1, name, b3 + open);
    BlanksSkipped(b3, open);
    NoBlankAhead(open);
    NotClosed(SplitName(TrimEnd(name)).0, SplitName(TrimEnd(name)).1, quote, value);
  }

  lemma NoBracket(s: string, rest: string)
    requires SkipBlanks(s) == rest && (rest == "" || rest[0] != '[')
    ensures ParsePredicate(s) == Invalid
  {
  }

  lemma EqualsFirst(b0: string, b1: string, rest: string)
    requires Only(b0, " \t") && Only(b1, " \t")
    ensures ParsePredicate(b0 + ("[" + (b1 + ("=" + rest)))) == Invalid
  {
    hide SkipBlanks, Atoi, IndexOf, TrimEnd, SplitName, ParseValue;
    var body := "=" + rest;
    var s := "[" + (b1 + body);
    BlanksSkipped(b0, s);
    NoBlankAhead(s);
    assert s[1..] == b1 + body;
    BlanksSkipped(b1, body);
    NoBlankAhead(body);
    FirstIs(body, '=', 0);
  }

  lemma NoQuote(prefix: Option<string>, name: string, rest: string)
    requires rest == "" || rest[0] !in "\"'"
    ensures ParseValue(prefix, name, rest) == Invalid
  {
  }

  lemma NotClosed(prefix: Option<string>, name: string, quote: char, value: string)
    requires quote in "\"'" && '"' !in value && '\'' !in value
    ensures ParseValue(prefix, name, [quote] + value) == Unterminated
  {
    var s := [quote] + value;
    assert s[1..] == value;
    QuoteIs(value, |value|);
  }

  lemma TokensStep(s: string)
    ensures Tokens(s) ==
      if s == "" then []
      else if s[0] == ']' then Tokens(s[1..])
      else [s[..IndexOf(s, ']')]] + Tokens(s[IndexOf(s, ']')..])
  {
  }

  lemma {:induction false} TokensAppend(s: string, t: string)
    requires s == "" || s[|s| - 1] == ']'
    ensures Tokens(s + t) == Tokens(s) + Tokens(t)
    decreases |s|
  {
    hide IndexOf, Tokens;
    TokensStep(s);
    if s == "" {
      assert s + t == t;
    } else {
      TokensStep(s + t);
      if s[0] == ']' {
        assert (s + t)[1..] == s[1..] + t;
        TokensAppend(s[1..], t);
      } else {
        LastIsIn(s, ']');
        IndexAppend(s, t, ']');
        var i := IndexOf(s, ']');
        Cut(s, t, i);
        TokensAppend(s[i..], t);
        assert [s[..i]] + (Tokens(s[i..]) + Tokens(t)) == ([s[..i]] + Tokens(s[i..])) + Tokens(t);
      }
    }
  }

  lemma Cut(s: string, t: string, i: nat)
    requires i < |s|
    ensures (s + t)[..i] == s[..i] && (s + t)[i..] == s[i..] + t && s[i..][|s[i..]| - 1] == s[|s| - 1]
  {
  }

  lemma LastIsIn(s: string, c: char)
    requires s != "" && s[|s| - 1] == c
    ensures 0 <= IndexOf(s, c) < |s| && (s[0] != c ==> IndexOf(s, c) > 0)
  {
  }

  lemma IndexAppend(s: string, t: string, c: char)
    requires IndexOf(s, c) < |s|
    ensures IndexOf(s + t, c) == IndexOf(s, c)
  {
    FirstIs(s + t, c, IndexOf(s, c));
  }

  lemma PrintedEnd(ps: seq<Predicate>)
    requires AllPrintable(ps)
    ensures PrintAll(ps) == "" || PrintAll(ps)[|PrintAll(ps)| - 1] == ']'
    decreases ps
  {
    hide PrintOpen;
    if ps != [] {
      PrintedEnd(ps[1..]);
    }
  }

  /** Text behind the last predicate is ignored as long as it opens no further one. */
  lemma TrailingTextIgnored(ps: seq<Predicate>, t: string)
    requires AllPrintable(ps) && '[' !in t
    ensures ParseAll(PrintAll(ps) + t) == ParseAll(PrintAll(ps))
  {
    hide ParsePredicate, ParseEach, Tokens, Count, PrintAll;
    PrintedTokens(ps);
    PrintedEnd(ps);
    TokensAppend(PrintAll(ps), t);
    CountConcat(PrintAll(ps), t, '[');
    CountNone(t, '[');
    var pieces := Tokens(PrintAll(ps));
    assert (pieces + Tokens(t))[..|ps|] == pieces;
    assert |Tokens(t)| == 0 ==> pieces + Tokens(t) == pieces;
  }
}
