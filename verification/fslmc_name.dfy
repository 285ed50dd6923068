/** Name parsing of the FSLMC bus: a device directory entry such as "dpni.3"
    is cut at '.' with strtok, its first token classified with strncmp
    against the object-type prefixes, and its second token read as an
    unsigned short with sscanf("%hu"). */
module FslmcName {

  /** A C string: the characters before its terminating NUL. */
  type CString = s: seq<char> | forall i :: 0 <= i < |s| ==> s[i] != '\0'

  /** The character at position i, the terminator past the end. */
  function CharAt(s: CString, i: nat): char {
    if i < |s| then s[i] else '\0'
  }

  /** strncmp(a, b, n) == 0: the strings agree on their first n characters,
      comparison stopping at a terminator both share. */
  function StrnEq(a: CString, b: CString, n: nat): bool
    decreases n
  {
    if n == 0 then true
    else if CharAt(a, 0) != CharAt(b, 0) then false
    else if CharAt(a, 0) == '\0' then true
    else StrnEq(a[1..], b[1..], n - 1)
  }

  predicate IsPrefix(p: seq<char>, s: seq<char>) {
    |p| <= |s| && s[..|p|] == p
  }

  /** With the literal's own length, strncmp tests for a prefix. */
  lemma {:induction false} StrnEqPrefix(lit: CString, s: CString)
    ensures StrnEq(lit, s, |lit|) <==> IsPrefix(lit, s)
    decreases |lit|
  {
    if |lit| > 0 {
      if |s| > 0 && lit[0] == s[0] {
        StrnEqPrefix(lit[1..], s[1..]);
        assert IsPrefix(lit, s) <==> IsPrefix(lit[1..], s[1..]) by {
          if IsPrefix(lit[1..], s[1..]) {
            assert s[..|lit|] == [s[0]] + s[1..][..|lit| - 1];
            assert lit == [lit[0]] + lit[1..];
          }
          if IsPrefix(lit, s) {
            assert s[1..][..|lit| - 1] == s[..|lit|][1..];
          }
        }
      } else if 0 < |s| && |lit| <= |s| {
        assert s[..|lit|][0] == s[0];
      }
    }
  }

  /** One character past the literal's length, strncmp also compares the
      terminator: only the literal itself matches. */
  lemma {:induction false} StrnEqExact(lit: CString, s: CString)
    ensures StrnEq(lit, s, |lit| + 1) <==> s == lit
    decreases |lit|
  {
    if |lit| == 0 {
      if |s| > 0 {
        assert CharAt(s, 0) != '\0';
      }
    } else if |s| > 0 && lit[0] == s[0] {
      StrnEqExact(lit[1..], s[1..]);
      if s[1..] == lit[1..] {
        assert s == [s[0]] + s[1..] && lit == [lit[0]] + lit[1..];
      }
    } else if |s| > 0 {
      assert s[0] != lit[0];
    }
  }

  const Empty: CString := []

  /** The suffix strtok starts its token at: leading delimiters skipped. */
  function SkipDots(s: CString): (r: CString)
    ensures |r| <= |s| && r == s[|s| - |r|..]
    ensures |r| > 0 ==> r[0] != '.'
    ensures forall i :: 0 <= i < |s| - |r| ==> s[i] == '.'
  {
    if |s| > 0 && s[0] == '.' then SkipDots(s[1..]) else s
  }

  /** The length of the token at the start of `s`: up to the first '.'. */
  function TokenLen(s: CString): (n: nat)
    ensures n <= |s|
    ensures forall i :: 0 <= i < n ==> s[i] != '.'
    ensures n < |s| ==> s[n] == '.'
  {
    if |s| == 0 || s[0] == '.' then 0 else 1 + TokenLen(s[1..])
  }

  /** strtok(s, "."), and strtok(NULL, ".") after it: None for NULL, else
      the token and the text the next call starts from (past the delimiter
      that ended the token, or empty at the end of the string). */
  function Strtok(s: CString): (r: Option<(CString, CString)>)
    ensures r.None? <==> forall i :: 0 <= i < |s| ==> s[i] == '.'
    ensures r.Some? ==> |r.value.0| > 0 && forall i :: 0 <= i < |r.value.0| ==> r.value.0[i] != '.'
  {
    var t := SkipDots(s);
    if |t| == 0 then None
    else
      var n := TokenLen(t);
      var tok: CString := t[..n];
      var rest: CString := if n < |t| then t[n + 1..] else [];
      Some((tok, rest))
  }

  /** Cutting a token followed by a '.' and the rest gives the token and the
      rest back; a string with no '.' at all is one token. */
  lemma StrtokSplit(tok: CString, rest: CString)
    requires |tok| > 0 && forall i :: 0 <= i < |tok| ==> tok[i] != '.'
    ensures Strtok(tok + ['.'] + rest) == Some((tok, rest))
    ensures Strtok(tok) == Some((tok, Empty))
  {
    var s: CString := tok + ['.'] + rest;
    assert SkipDots(s) == s;
    TokenLenOf(tok, s);
    assert s[..|tok|] == tok && s[|tok| + 1..] == rest;
    assert SkipDots(tok) == tok;
    TokenLenOf(tok, tok);
    assert tok[..|tok|] == tok;
  }

  lemma {:induction false} TokenLenOf(tok: CString, s: CString)
    requires IsPrefix(tok, s) && forall i :: 0 <= i < |tok| ==> tok[i] != '.'
    requires |s| > |tok| ==> s[|tok|] == '.'
    ensures TokenLen(s) == |tok|
    decreases |tok|
  {
    if |tok| > 0 {
      assert s[0] == tok[0];
      assert s[1..][..|tok| - 1] == tok[1..];
      TokenLenOf(tok[1..], s[1..]);
    }
  }

  /** The object types of the bus, as rte_dpaa2_device's dev_type. */
  datatype DevType = Eth | Crypto | Con | Bpool | Io | Ci | MPortal | Unknown

  /** The type scan_one_fslmc_device gives a first token, testing the
      literals in this order with these strncmp lengths. */
  function TypeOf(tok: CString): DevType {
    if StrnEq("dpni", tok, 4) then Eth
    else if StrnEq("dpseci", tok, 6) then Crypto
    else if StrnEq("dpcon", tok, 5) then Con
    else if StrnEq("dpbp", tok, 4) then Bpool
    else if StrnEq("dpio", tok, 4) then Io
    else if StrnEq("dpci", tok, 5) then Ci
    else if StrnEq("dpmcp", tok, 5) then MPortal
    else Unknown
  }

  /** The type table: a token of type dpni, dpseci, dpcon, dpbp, dpio or
      dpmcp is one that starts with that literal, while dpci, compared over
      five characters, is the token "dpci" alone. */
  lemma TypeOfTable(tok: CString)
    ensures TypeOf(tok) == Eth <==> IsPrefix("dpni", tok)
    ensures TypeOf(tok) == Crypto <==> IsPrefix("dpseci", tok)
    ensures TypeOf(tok) == Con <==> IsPrefix("dpcon", tok)
    ensures TypeOf(tok) == Bpool <==> IsPrefix("dpbp", tok)
    ensures TypeOf(tok) == Io <==> IsPrefix("dpio", tok)
    ensures TypeOf(tok) == Ci <==> tok == "dpci"
    ensures TypeOf(tok) == MPortal <==> IsPrefix("dpmcp", tok)
    ensures TypeOf(tok) == Unknown <==>
      && !IsPrefix("dpni", tok) && !IsPrefix("dpseci", tok) && !IsPrefix("dpcon", tok)
      && !IsPrefix("dpbp", tok) && !IsPrefix("dpio", tok) && tok != "dpci"
      && !IsPrefix("dpmcp", tok)
  {
    StrnEqPrefix("dpni", tok);
    StrnEqPrefix("dpseci", tok);
    StrnEqPrefix("dpcon", tok);
    StrnEqPrefix("dpbp", tok);
    StrnEqPrefix("dpio", tok);
    StrnEqExact("dpci", tok);
    StrnEqPrefix("dpmcp", tok);
  }

  datatype Option<T> = None | Some(value: T)

  /** isspace in the C locale. */
  predicate IsSpace(c: char) {
    c == ' ' || 9 <= c as int <= 13
  }

  predicate IsDigit(c: char) {
    48 <= c as int <= 57
  }

  function DigitValue(c: char): (v: nat)
    requires IsDigit(c)
    ensures v < 10
  {
    c as int - 48
  }

  function SkipSpace(s: CString): (r: CString)
    ensures |r| <= |s| && r == s[|s| - |r|..]
    ensures |r| > 0 ==> !IsSpace(r[0])
  {
    if |s| > 0 && IsSpace(s[0]) then SkipSpace(s[1..]) else s
  }

  /** The longest run of decimal digits at the start of `s`. */
  function Digits(s: CString): (d: CString)
    ensures |d| <= |s| && d == s[..|d|]
    ensures forall i :: 0 <= i < |d| ==> IsDigit(d[i])
  {
    if |s| > 0 && IsDigit(s[0]) then [s[0]] + Digits(s[1..]) else []
  }

  /** The value of a run of decimal digits. */
  function DecValue(d: seq<char>): nat
    requires forall i :: 0 <= i < |d| ==> IsDigit(d[i])
  {
    if |d| == 0 then 0 else DecValue(d[..|d| - 1]) * 10 + DigitValue(d[|d| - 1])
  }

  /** ULONG_MAX on the 64-bit targets of the bus. */
  const ULONG_MAX: nat := 0xFFFF_FFFF_FFFF_FFFF

  /** strtoul's result for digits of value v after an optional minus sign:
      negation modulo ULONG_MAX + 1, and ULONG_MAX for a value past it. */
  function Strtoul(neg: bool, v: nat): (l: nat)
    ensures l <= ULONG_MAX
    ensures !neg && v <= ULONG_MAX ==> l == v
  {
    if v > ULONG_MAX then ULONG_MAX else if neg && v > 0 then ULONG_MAX + 1 - v else v
  }

  /** What sscanf's %u conversion reads of `tok`: white space skipped, then
      an optional sign, then the longest run of decimal digits. */
  function Lex(tok: CString): (r: (bool, CString))
    ensures forall i :: 0 <= i < |r.1| ==> IsDigit(r.1[i])
  {
    var t := SkipSpace(tok);
    var neg := |t| > 0 && t[0] == '-';
    var u := if |t| > 0 && (t[0] == '-' || t[0] == '+') then t[1..] else t;
    (neg, Digits(u))
  }

  /** sscanf(tok, "%hu", &id): the digits Lex finds, converted as strtoul
      does and stored into 16 bits. None when there is no digit: nothing is
      stored. */
  function ScanU16(tok: CString): (r: Option<nat>)
    ensures r.Some? ==> r.value < 0x1_0000
  {
    var (neg, ds) := Lex(tok);
    if |ds| == 0 then None
    else Some(Store16(Strtoul(neg, DecValue(ds))))
  }

  /** Storing an unsigned long into an unsigned short keeps its low 16 bits. */
  function Store16(l: nat): (r: nat)
    ensures r < 0x1_0000
    ensures l < 0x1_0000 ==> r == l
    decreases l
  {
    if l < 0x1_0000 then l else Store16(l - 0x1_0000)
  }

  /** Store16 is the truncation to the low 16 bits. */
  lemma {:induction false} Store16Low(l: nat)
    ensures Store16(l) == l % 0x1_0000
    decreases l
  {
    if l >= 0x1_0000 {
      Store16Low(l - 0x1_0000);
    }
  }

  /** The decimal spelling of n, as printf("%u") writes it. */
  function Decimal(n: nat): (s: CString)
    ensures |s| > 0 && forall i :: 0 <= i < |s| ==> IsDigit(s[i])
  {
    var c := (48 + n % 10) as char;
    if n < 10 then [c] else Decimal(n / 10) + [c]
  }

  lemma {:induction false} DecimalValue(n: nat)
    ensures DecValue(Decimal(n)) == n
  {
    if n >= 10 {
      DecimalValue(n / 10);
      var s := Decimal(n);
      assert s[..|s| - 1] == Decimal(n / 10);
    }
  }

  lemma {:induction false} DigitsOfDigits(s: CString)
    requires forall i :: 0 <= i < |s| ==> IsDigit(s[i])
    ensures Digits(s) == s
  {
    if |s| > 0 {
      DigitsOfDigits(s[1..]);
      assert s == [s[0]] + s[1..];
    }
  }

  /** A token of digits alone is read as those digits, without a sign. */
  lemma ScanDigits(s: CString)
    requires |s| > 0 && forall i :: 0 <= i < |s| ==> IsDigit(s[i])
    ensures Lex(s) == (false, s)
  {
    assert SkipSpace(s) == s;
    assert s[0] != '-' && s[0] != '+';
    DigitsOfDigits(s);
  }

  /** Reading back a number that fits an unsigned short gives that number. */
  lemma ScanDecimal(n: nat)
    requires n < 0x1_0000
    ensures ScanU16(Decimal(n)) == Some(n)
  {
    DecimalValue(n);
    ScanValue(Decimal(n));
  }

  lemma ScanValue(s: CString)
    requires |s| > 0 && forall i :: 0 <= i < |s| ==> IsDigit(s[i])
    requires DecValue(s) < 0x1_0000
    ensures ScanU16(s) == Some(DecValue(s))
  {
    ScanDigits(s);
  }

  /** A device name cut into its type and object id; None when either
      token is missing. The object id is 0, what calloc left, when the
      second token holds no number. */
  function ParseName(name: CString): (r: Option<(DevType, nat)>)
    ensures r.Some? ==> r.value.1 < 0x1_0000
  {
    match Strtok(name)
    case None => None
    case Some(first) =>
      match Strtok(first.1)
      case None => None
      case Some(second) =>
        var id := ScanU16(second.0);
        Some((TypeOf(first.0), if id.Some? then id.value else 0))
  }

  /** A name written as type, '.', id parses back to that type and id. */
  lemma ParseNameOf(tok: CString, n: nat)
    requires |tok| > 0 && (forall i :: 0 <= i < |tok| ==> tok[i] != '.') && n < 0x1_0000
    ensures ParseName(tok + ['.'] + Decimal(n)) == Some((TypeOf(tok), n))
  {
    var d := Decimal(n);
    StrtokSplit(tok, d);
    assert forall i :: 0 <= i < |d| ==> d[i] != '.';
    StrtokSplit(d, Empty);
    ScanDecimal(n);
  }
}
