/** The two parsers of the configuration: allowed origins and the request body limit. */
module ConfigParsers {
  import opened Wrappers

  // ---------- white space ----------

  /** unicode.IsSpace. */
  predicate IsSpace(c: char) {
    var x := c as int;
    || 9 <= x <= 13 || x == 32 || x == 0x85 || x == 0xA0 || x == 0x1680 || 0x2000 <= x <= 0x200a
    || x == 0x2028 || x == 0x2029 || x == 0x202f || x == 0x205f || x == 0x3000
  }

  function TrimLeft(s: string): string {
    if s != [] && IsSpace(s[0]) then TrimLeft(s[1..]) else s
  }

  function TrimRight(s: string): string {
    if s != [] && IsSpace(s[|s| - 1]) then TrimRight(s[..|s| - 1]) else s
  }

  /** strings.TrimSpace. */
  function Trim(s: string): string {
    TrimRight(TrimLeft(s))
  }

  predicate IsTrimmed(s: string) {
    s != [] ==> !IsSpace(s[0]) && !IsSpace(s[|s| - 1])
  }

  lemma {:induction false} TrimLeftShape(s: string)
    ensures TrimLeft(s) != [] ==> !IsSpace(TrimLeft(s)[0])
    ensures forall c | c in TrimLeft(s) :: c in s
    decreases |s|
  {
    if s == [] || !IsSpace(s[0]) {
    } else {
      TrimLeftShape(s[1..]);
    }
  }

  lemma {:induction false} TrimRightShape(s: string)
    ensures TrimRight(s) <= s
    ensures TrimRight(s) != [] ==> !IsSpace(TrimRight(s)[|TrimRight(s)| - 1])
    decreases |s|
  {
    if s == [] || !IsSpace(s[|s| - 1]) {
    } else {
      TrimRightShape(s[..|s| - 1]);
    }
  }

  /** Trimming leaves a trimmed text made of the same characters, and leaves a trimmed
      text alone. */
  lemma TrimShape(s: string)
    ensures IsTrimmed(Trim(s)) && (forall c | c in Trim(s) :: c in s)
    ensures IsTrimmed(s) ==> Trim(s) == s
  {
    var l := TrimLeft(s);
    TrimLeftShape(s);
    TrimRightShape(l);
    forall c | c in Trim(s) ensures c in s {
      var i :| 0 <= i < |Trim(s)| && Trim(s)[i] == c;
      assert l[i] == c && c in l;
    }
  }

  ghost predicate Blank(s: string) {
    forall c | c in s :: IsSpace(c)
  }

  /** White space is the white space of Unicode: six control characters and the separators. */
  lemma WhiteSpace(c: char)
    ensures IsSpace(c) <==>
              c in {'\t', '\n', '\U{0B}', '\U{0C}', '\r', ' ', '\U{85}', '\U{A0}', '\U{1680}', '\U{2000}', '\U{2001}', '\U{2002}',
                    '\U{2003}', '\U{2004}', '\U{2005}', '\U{2006}', '\U{2007}', '\U{2008}', '\U{2009}', '\U{200A}', '\U{2028}',
                    '\U{2029}', '\U{202F}', '\U{205F}', '\U{3000}'}
  {
  }

  lemma {:induction false} TrimLeftPad(a: string, s: string)
    requires Blank(a) && (s != [] ==> !IsSpace(s[0]))
    ensures TrimLeft(a + s) == s
    decreases |a|
  {
    if a == [] {
      assert a + s == s;
    } else {
      assert (a + s)[1..] == a[1..] + s;
      assert a[0] in a && forall c | c in a[1..] :: c in a;
      TrimLeftPad(a[1..], s);
    }
  }

  lemma {:induction false} TrimRightPad(s: string, b: string)
    requires Blank(b) && (s != [] ==> !IsSpace(s[|s| - 1]))
    ensures TrimRight(s + b) == s
    decreases |b|
  {
    if b == [] {
      assert s + b == s;
    } else {
      var cut := b[..|b| - 1];
      assert (s + b)[..|s + b| - 1] == s + cut;
      assert b[|b| - 1] in b && forall c | c in cut :: c in b;
      TrimRightPad(s, cut);
    }
  }

  /** Trimming removes the white space around a text and nothing else. */
  lemma TrimPad(a: string, o: string, b: string)
    requires Blank(a) && Blank(b) && IsTrimmed(o)
    ensures Trim(a + o + b) == o
  {
    if o == [] {
      assert a + o + b == (a + b) + [];
      TrimLeftPad(a + b, []);
    } else {
      assert a + o + b == a + (o + b);
      TrimLeftPad(a, o + b);
      TrimRightPad(o, b);
    }
  }

  // ---------- origins ----------

  /** strings.Split(s, ","). */
  function Split(s: string): (parts: seq<string>)
    ensures |parts| >= 1
  {
    if s == [] then [""]
    else
      var rest := Split(s[1..]);
      if s[0] == ',' then [""] + rest else [[s[0]] + rest[0]] + rest[1..]
  }

  function Join(os: seq<string>): string {
    if os == [] then "" else if |os| == 1 then os[0] else os[0] + "," + Join(os[1..])
  }

  function Kept(parts: seq<string>): seq<string> {
    if parts == [] then []
    else (if Trim(parts[0]) != "" then [Trim(parts[0])] else []) + Kept(parts[1..])
  }

  function Origins(raw: string): seq<string> {
    if raw == "" then [] else Kept(Split(raw))
  }

  lemma {:induction false} KeptAppend(a: seq<string>, p: string)
    ensures Kept(a + [p]) == Kept(a) + (if Trim(p) != "" then [Trim(p)] else [])
    decreases |a|
  {
    if a == [] {
      assert a + [p] == [p] && Kept([p]) == (if Trim(p) != "" then [Trim(p)] else []) + Kept([]);
    } else {
      assert (a + [p])[1..] == a[1..] + [p];
      KeptAppend(a[1..], p);
    }
  }

  method ParsedCORSOrigins(raw: string) returns (out: seq<string>)
    ensures out == Origins(raw)
  {
    if raw == "" {
      return [];
    }
    var parts := Split(raw);
    out := [];
    for i := 0 to |parts|
      invariant out == Kept(parts[..i])
    {
      var trimmed := Trim(parts[i]);
      KeptAppend(parts[..i], parts[i]);
      assert parts[..i + 1] == parts[..i] + [parts[i]];
      if trimmed != "" {
        out := out + [trimmed];
      }
    }
    assert parts[..|parts|] == parts;
  }

  /** What the configuration calls an origin. */
  predicate IsOrigin(o: string) {
    o != "" && IsTrimmed(o) && ',' !in o
  }

  ghost predicate AllOrigins(os: seq<string>) {
    forall o | o in os :: IsOrigin(o)
  }

  lemma {:induction false} SplitComma(a: string, rest: string)
    requires ',' !in a
    ensures Split(a) == [a]
    ensures Split(a + "," + rest) == [a] + Split(rest)
    decreases |a|
  {
    var whole := a + "," + rest;
    if a == [] {
      assert whole[1..] == rest;
    } else {
      assert whole[1..] == a[1..] + "," + rest;
      SplitComma(a[1..], rest);
      assert [a[0]] + a[1..] == a;
    }
  }

  lemma {:induction false} SplitJoin(os: seq<string>)
    requires os != [] && forall o | o in os :: ',' !in o
    ensures Split(Join(os)) == os
    decreases |os|
  {
    SplitComma(os[0], Join(os[1..]));
    if |os| == 1 {
    } else {
      SplitJoin(os[1..]);
    }
  }

  lemma {:induction false} KeptOrigins(os: seq<string>)
    requires AllOrigins(os)
    ensures Kept(os) == os
    decreases |os|
  {
    if os == [] {
    } else {
      assert os[0] in os;
      TrimShape(os[0]);
      KeptOrigins(os[1..]);
    }
  }

  /** Printing any list of origins with commas and parsing it gives the list back. */
  lemma OriginsRoundTrip(os: seq<string>)
    requires AllOrigins(os)
    ensures Origins(Join(os)) == os
  {
    if os != [] {
      assert os[0] in os && IsOrigin(os[0]);
      assert Join(os) != "";
      SplitJoin(os);
      KeptOrigins(os);
    }
  }

  /** An entry of the list as it may be written: a text with white space around it. */
  datatype Entry = Entry(left: string, text: string, right: string)

  ghost predicate WellWritten(e: Entry) {
    Blank(e.left) && Blank(e.right) && IsTrimmed(e.text) && ',' !in e.text
  }

  function Written(es: seq<Entry>): seq<string> {
    if es == [] then [] else [es[0].left + es[0].text + es[0].right] + Written(es[1..])
  }

  function Texts(es: seq<Entry>): seq<string> {
    if es == [] then [] else (if es[0].text == "" then [] else [es[0].text]) + Texts(es[1..])
  }

  lemma {:induction false} KeptTexts(es: seq<Entry>)
    requires forall e | e in es :: WellWritten(e)
    ensures Kept(Written(es)) == Texts(es)
    ensures |Written(es)| == |es| && forall p | p in Written(es) :: ',' !in p
    decreases |es|
  {
    if es == [] {
    } else {
      assert es[0] in es;
      TrimPad(es[0].left, es[0].text, es[0].right);
      NoCommaIn(es[0]);
      KeptTexts(es[1..]);
      assert Written(es)[1..] == Written(es[1..]);
    }
  }

  lemma NoCommaIn(e: Entry)
    requires WellWritten(e)
    ensures ',' !in e.left + e.text + e.right
  {
    assert !IsSpace(',');
  }

  /** Parsing any list of entries joined by commas, however padded, gives the texts of the
      entries that are not empty, in their order; so a list of padded origins comes back. */
  lemma PaddedRoundTrip(es: seq<Entry>)
    requires forall e | e in es :: WellWritten(e)
    ensures Origins(Join(Written(es))) == Texts(es)
  {
    KeptTexts(es);
    if es == [] {
    } else {
      SplitJoin(Written(es));
      if Join(Written(es)) == "" {
        assert Split("") == [""] && Kept([""]) == Kept([]) by { TrimShape(""); }
      }
    }
  }

  lemma {:induction false} SplitHasNoComma(s: string)
    ensures forall p | p in Split(s) :: ',' !in p
    decreases |s|
  {
    if s == [] {
    } else {
      SplitHasNoComma(s[1..]);
      var rest := Split(s[1..]);
      assert rest[0] in rest;
    }
  }

  lemma {:induction false} KeptIsClean(parts: seq<string>)
    requires forall p | p in parts :: ',' !in p
    ensures AllOrigins(Kept(parts))
    decreases |parts|
  {
    if parts == [] {
    } else {
      assert parts[0] in parts;
      TrimShape(parts[0]);
      KeptIsClean(parts[1..]);
    }
  }

  /** Whatever the text, parsing yields origins only, and parsing again what they print
      changes nothing. */
  lemma OriginsStable(raw: string)
    ensures AllOrigins(Origins(raw))
    ensures Origins(Join(Origins(raw))) == Origins(raw)
  {
    SplitHasNoComma(raw);
    KeptIsClean(Split(raw));
    OriginsRoundTrip(Origins(raw));
  }

  // ---------- request body limit ----------

  const KB := 1024
  const MB := 1024 * 1024
  const GB := 1024 * 1024 * 1024
  const MAX64 := 0x7fff_ffff_ffff_ffff

  predicate AllDigits(s: string) {
    forall i | 0 <= i < |s| :: '0' <= s[i] <= '9'
  }

  function Value(s: string): nat
    requires AllDigits(s)
  {
    if s == [] then 0 else Value(s[..|s| - 1]) * 10 + (s[|s| - 1] as int - '0' as int)
  }

  /** strconv.ParseInt(s, 10, 64). */
  function ParseInt(s: string): Option<int> {
    var body := if s != [] && (s[0] == '+' || s[0] == '-') then s[1..] else s;
    var negative := s != [] && s[0] == '-';
    if body == [] || !AllDigits(body) then None
    else
      var v: int := if negative then 0 - Value(body) else Value(body);
      if -MAX64 - 1 <= v <= MAX64 then Some(v) else None
  }

  /** int64 arithmetic. */
  function Wrap64(x: int): int {
    (x + MAX64 + 1) % (2 * (MAX64 + 1)) - (MAX64 + 1)
  }

  /** The result is an int64 and differs by a multiple of 2^64. */
  lemma Wraps(x: int)
    ensures -0x8000_0000_0000_0000 <= Wrap64(x) <= 0x7fff_ffff_ffff_ffff
    ensures (x - Wrap64(x)) % 0x1_0000_0000_0000_0000 == 0
  {
    var m := 2 * (MAX64 + 1);
    var q := (x + MAX64 + 1) / m;
    assert x + MAX64 + 1 == q * m + (x + MAX64 + 1) % m;
    assert x - Wrap64(x) == q * m;
  }

  function Multiplier(c: char): Option<int> {
    if c == 'K' then Some(KB) else if c == 'M' then Some(MB) else if c == 'G' then Some(GB) else None
  }

  function MaxRequestBodyBytes(maxRequestBody: string): int {
    var raw := Trim(maxRequestBody);
    if raw == "" then MB
    else
      match Multiplier(raw[|raw| - 1])
      case Some(multiplier) =>
        (match ParseInt(raw[..|raw| - 1])
         case None => MB
         case Some(n) => if n <= 0 then MB else Wrap64(n * multiplier))
      case None =>
        match ParseInt(raw)
        case None => MB
        case Some(n) => if n <= 0 then MB else n
  }

  datatype Unit = Bytes | Kilo | Mega | Giga

  function Suffix(u: Unit): string {
    match u case Bytes => "" case Kilo => "K" case Mega => "M" case Giga => "G"
  }

  function Factor(u: Unit): int {
    match u case Bytes => 1 case Kilo => KB case Mega => MB case Giga => GB
  }

  /** The text of a size: an optional plus sign, digits, an optional unit. */
  ghost predicate IsSize(text: string, plus: bool, digits: string, u: Unit) {
    && digits != [] && AllDigits(digits)
    && text == Body(plus, digits) + Suffix(u)
  }

  function Body(plus: bool, digits: string): string {
    (if plus then "+" else "") + digits
  }

  /** Digits are the ten decimal ones. */
  lemma Digits(s: string)
    ensures AllDigits(s) <==> forall c | c in s :: c in "0123456789"
  {
    assert "0123456789" == ['0', '1', '2', '3', '4', '5', '6', '7', '8', '9'];
    if AllDigits(s) {
      forall c | c in s ensures c in "0123456789" {
        var d := c as int - '0' as int;
        assert "0123456789"[d] == c;
      }
    }
    if forall c | c in s :: c in "0123456789" {
      forall i | 0 <= i < |s| ensures '0' <= s[i] <= '9' { assert s[i] in s; }
    }
  }

  lemma {:induction false} LeadingZero(s: string)
    requires AllDigits(s)
    ensures AllDigits("0" + s) && Value("0" + s) == Value(s)
    decreases |s|
  {
    var t := "0" + s;
    if s == [] {
      assert t[..|t| - 1] == [];
    } else {
      LeadingZero(s[..|s| - 1]);
      assert t[..|t| - 1] == "0" + s[..|s| - 1] && t[|t| - 1] == s[|s| - 1];
    }
  }

  lemma BodyParses(plus: bool, digits: string)
    requires digits != [] && AllDigits(digits)
    ensures var body := Body(plus, digits);
            && body != [] && !IsSpace(body[0]) && '0' <= body[|body| - 1] <= '9'
            && ParseInt(body) == if Value(digits) <= MAX64 then Some(Value(digits)) else None
  {
    var body := Body(plus, digits);
    if plus {
      assert body[1..] == digits && body[|body| - 1] == digits[|digits| - 1];
    } else {
      assert body == digits;
    }
  }

  lemma SizeParts(text: string, plus: bool, digits: string, u: Unit)
    requires IsSize(text, plus, digits, u)
    ensures text != [] && IsTrimmed(text)
    ensures var body := Body(plus, digits);
            && (u.Bytes? ==> text == body && Multiplier(text[|text| - 1]).None?)
            && (!u.Bytes? ==> text[..|text| - 1] == body && Multiplier(text[|text| - 1]) == Some(Factor(u)))
  {
    hide ParseInt, AllDigits;
    BodyParses(plus, digits);
    var body := Body(plus, digits);
    if u.Bytes? {
      assert text == body;
    } else {
      assert text == body + Suffix(u) && text[..|text| - 1] == body && text[0] == body[0];
    }
  }

  /** A positive number parses only from digits after an optional plus sign. */
  lemma ParsedBody(body: string) returns (plus: bool, digits: string)
    requires ParseInt(body).Some? && ParseInt(body).value > 0
    ensures digits != [] && AllDigits(digits) && body == Body(plus, digits)
    ensures 1 <= Value(digits) == ParseInt(body).value <= MAX64
  {
    plus := body[0] == '+';
    digits := if plus then body[1..] else body;
  }

  lemma WrapInRange(x: int)
    requires x >= 1
    ensures Wrap64(x) == x <==> x <= MAX64
  {
  }

  lemma FactorWraps(n: nat, u: Unit)
    requires n >= 1
    ensures Wrap64(n * Factor(u)) == n * Factor(u) <==> n * Factor(u) <= MAX64
    ensures n > MAX64 ==> n * Factor(u) > MAX64
  {
    match u
    case Bytes => WrapInRange(n * 1);
    case Kilo => WrapInRange(n * KB);
    case Mega => WrapInRange(n * MB);
    case Giga => WrapInRange(n * GB);
  }

  /** The branch taken for a parsed amount. */
  lemma SizeBranch(raw: string, plus: bool, digits: string, u: Unit)
    requires IsSize(Trim(raw), plus, digits, u)
    ensures var n := Value(digits); var r := MaxRequestBodyBytes(raw);
            && (1 <= n <= MAX64 && u.Bytes? ==> r == n)
            && (1 <= n <= MAX64 && !u.Bytes? ==> r == Wrap64(n * Factor(u)))
            && (!(1 <= n <= MAX64) ==> r == MB)
  {
    SizeParts(Trim(raw), plus, digits, u);
    BodyParses(plus, digits);
    hide Trim, ParseInt, AllDigits, Value, IsSize, Wrap64, Factor, Multiplier, Body;
  }

  /** A size text yields exactly digits times factor if and only if that fits an int64, and
      its wrapped product otherwise; a number that does not fit on its own, or is zero,
      yields one mebibyte. */
  lemma SizeExact(raw: string, plus: bool, digits: string, u: Unit)
    requires IsSize(Trim(raw), plus, digits, u)
    ensures var n := Value(digits); var r := MaxRequestBodyBytes(raw);
            if 1 <= n <= MAX64 then
              r == Wrap64(n * Factor(u)) && (r == n * Factor(u) <==> n * Factor(u) <= MAX64)
            else r == MB
  {
    var n := Value(digits);
    hide Trim, ParseInt, AllDigits, Value, IsSize, Wrap64, MaxRequestBodyBytes;
    SizeBranch(raw, plus, digits, u);
    if n >= 1 {
      FactorWraps(n, u);
      assert u.Bytes? ==> n * Factor(u) == n;
    }
  }

  /** Every text that is not a size from 1 to the greatest int64, be it empty, malformed
      or not positive, yields one mebibyte. */
  lemma SizeFallback(raw: string)
    ensures MaxRequestBodyBytes(raw) == MB
         || exists plus, digits, u :: IsSize(Trim(raw), plus, digits, u) && 1 <= Value(digits) <= MAX64
  {
    var text := Trim(raw);
    if text != "" {
      var last := text[|text| - 1];
      var u := if last == 'K' then Kilo else if last == 'M' then Mega else if last == 'G' then Giga else Bytes;
      var body := if u.Bytes? then text else text[..|text| - 1];
      assert text == body + Suffix(u);
      hide Trim, ParseInt, AllDigits, Value;
      if ParseInt(body).Some? && ParseInt(body).value > 0 {
        var plus, digits := ParsedBody(body);
        assert IsSize(text, plus, digits, u);
      }
    }
  }

  function Decimal(n: nat): string {
    var digit := [(n % 10 + '0' as int) as char];
    if n < 10 then digit else Decimal(n / 10) + digit
  }

  lemma {:induction false} DecimalValue(n: nat)
    ensures Decimal(n) != [] && AllDigits(Decimal(n)) && Value(Decimal(n)) == n
    decreases n
  {
    var s := Decimal(n);
    var digit := (n % 10 + '0' as int) as char;
    if n < 10 {
      assert s == [digit] && s[..0] == [];
    } else {
      DecimalValue(n / 10);
      assert s[..|s| - 1] == Decimal(n / 10) && s[|s| - 1] == digit;
      forall i | 0 <= i < |s| ensures '0' <= s[i] <= '9' {
        if i < |s| - 1 { assert s[i] == Decimal(n / 10)[i]; }
      }
    }
  }

  /** Printing a size and parsing it back is exact if and only if the size fits an int64. */
  lemma SizeRoundTrip(n: nat, u: Unit)
    requires n >= 1
    ensures MaxRequestBodyBytes(Decimal(n) + Suffix(u)) == n * Factor(u) <==> n * Factor(u) <= MAX64
  {
    var text := Decimal(n) + Suffix(u);
    DecimalValue(n);
    assert IsSize(text, false, Decimal(n), u);
    SizeParts(text, false, Decimal(n), u);
    TrimShape(text);
    hide Trim, ParseInt, AllDigits, Value, Decimal, IsSize, Wrap64, MaxRequestBodyBytes, Factor;
    SizeExact(text, false, Decimal(n), u);
    FactorWraps(n, u);
  }

  /** White space around the text makes no difference. */
  lemma SizePadded(a: string, text: string, b: string)
    requires Blank(a) && Blank(b) && IsTrimmed(text)
    ensures MaxRequestBodyBytes(a + text + b) == MaxRequestBodyBytes(text)
  {
    TrimPad(a, text, b);
    TrimShape(text);
    hide Trim;
  }

  /** The units, and the fallback. */
  lemma Units()
    ensures MaxRequestBodyBytes("1") == 1 && MaxRequestBodyBytes("1K") == 1024
    ensures MaxRequestBodyBytes("1M") == 1_048_576 && MaxRequestBodyBytes("1G") == 1_073_741_824
    ensures MaxRequestBodyBytes("") == 1_048_576
  {
    hide MaxRequestBodyBytes, Wrap64;
    assert Decimal(1) == "1";
    assert "1" + "" == "1" && "1" + "K" == "1K" && "1" + "M" == "1M" && "1" + "G" == "1G";
    SizeRoundTrip(1, Bytes);
    SizeRoundTrip(1, Kilo);
    SizeRoundTrip(1, Mega);
    SizeRoundTrip(1, Giga);
    EmptyIsDefault();
  }

  lemma EmptyIsDefault()
    ensures MaxRequestBodyBytes("") == 1_048_576
  {
  }
}
