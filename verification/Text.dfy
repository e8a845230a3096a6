/** The Go string and integer functions the connector and its test server rely on:
    decimal printing and parsing, substring search, splitting and trimming. */
module Text {

  datatype Option<+T> = None | Some(value: T) {
    function GetOr(fallback: T): T {
      match this
      case Some(v) => v
      case None => fallback
    }
  }

  // ----- integers -----------------------------------------------------------------------------

  const MAX_INT: int := 0x7FFF_FFFF_FFFF_FFFF
  const MIN_INT: int := -0x8000_0000_0000_0000

  /** The sum of two non-negative `int`s on a 64-bit platform, where overflow wraps around. */
  function Wrap(sum: nat): (r: int)
    ensures sum <= MAX_INT ==> r == sum
    ensures MAX_INT < sum <= 2 * MAX_INT ==> MIN_INT <= r < 0
  {
    if sum <= MAX_INT then sum else sum - 0x1_0000_0000_0000_0000
  }

  function DigitChar(d: nat): char
    requires d < 10
  {
    ('0' as int + d) as char
  }

  predicate IsDigit(c: char) {
    '0' <= c <= '9'
  }

  /** `fmt.Sprintf("%d", n)` for a count. */
  function Decimal(n: nat): (s: string)
    ensures s != "" && forall c | c in s :: IsDigit(c)
  {
    if n < 10 then [DigitChar(n)] else Decimal(n / 10) + [DigitChar(n % 10)]
  }

  /** `strconv.Itoa`. */
  function Itoa(n: int): (s: string)
    ensures s != ""
  {
    if n < 0 then "-" + Decimal(-n) else Decimal(n)
  }

  function ParseDigits(s: string): Option<nat> {
    if s == "" || !IsDigit(s[|s| - 1]) then None
    else
      var last := s[|s| - 1] as int - '0' as int;
      if |s| == 1 then Some(last)
      else
        match ParseDigits(s[..|s| - 1])
        case Some(high) => Some(10 * high + last)
        case None => None
  }

  /** `strconv.Atoi`: an optional sign, then digits, and an error outside the 64-bit range. */
  function Atoi(s: string): (r: Option<int>)
    ensures r.Some? ==> MIN_INT <= r.value <= MAX_INT
  {
    var signed := s != "" && s[0] in "+-";
    match ParseDigits(if signed then s[1..] else s)
    case None => None
    case Some(digits) =>
      var n: int := digits;
      var value := if signed && s[0] == '-' then -n else n;
      if MIN_INT <= value <= MAX_INT then Some(value) else None
  }

  lemma {:induction false} ParseDecimal(n: nat)
    ensures ParseDigits(Decimal(n)) == Some(n)
  {
    if n >= 10 {
      ParseDecimal(n / 10);
      var s := Decimal(n);
      assert s[..|s| - 1] == Decimal(n / 10);
    }
  }

  /** Printing and parsing a number that fits an `int` is the identity. */
  lemma AtoiItoa(n: int)
    requires MIN_INT <= n <= MAX_INT
    ensures Atoi(Itoa(n)) == Some(n)
  {
    hide ParseDigits, Decimal;
    if n < 0 {
      ParseDecimal(-n);
      assert Itoa(n)[1..] == Decimal(-n);
    } else {
      ParseDecimal(n);
      assert IsDigit(Decimal(n)[0]);
    }
  }

  lemma DecimalInjective(m: nat, n: nat)
    ensures Decimal(m) == Decimal(n) ==> m == n
  {
    ParseDecimal(m);
    ParseDecimal(n);
  }

  // ----- substrings ---------------------------------------------------------------------------

  predicate OccursAt(s: string, sep: string, i: int) {
    0 <= i <= |s| - |sep| && s[i..i + |sep|] == sep
  }

  lemma OccursInTail(s: string, sep: string, j: int)
    requires s != "" && 0 < j
    ensures OccursAt(s, sep, j) <==> OccursAt(s[1..], sep, j - 1)
  {
    if j <= |s| - |sep| {
      assert s[j..j + |sep|] == s[1..][j - 1..j - 1 + |sep|];
    }
  }

  /** `strings.Index`: the first place where `sep` occurs, or -1. */
  function Index(s: string, sep: string): (i: int)
    ensures -1 <= i <= |s| - |sep| || i == -1
    ensures i >= 0 ==> OccursAt(s, sep, i) && forall j | 0 <= j < i :: !OccursAt(s, sep, j)
    ensures i == -1 ==> forall j :: !OccursAt(s, sep, j)
    decreases |s|
  {
    if |s| < |sep| then -1
    else if s[..|sep|] == sep then 0
    else if s == "" then -1
    else
      var i := Index(s[1..], sep);
      assert forall j | 0 < j :: OccursAt(s, sep, j) <==> OccursAt(s[1..], sep, j - 1) by {
        forall j | 0 < j ensures OccursAt(s, sep, j) <==> OccursAt(s[1..], sep, j - 1) {
          OccursInTail(s, sep, j);
        }
      }
      assert !OccursAt(s, sep, 0);
      if i == -1 then -1 else i + 1
  }

  /** Searching for a one-character string finds the first place of that character. */
  lemma IndexOfChar(s: string, c: char)
    ensures Index(s, [c]) == -1 <==> c !in s
    ensures Index(s, [c]) >= 0 ==> s[Index(s, [c])] == c && c !in s[..Index(s, [c])]
  {
    forall j | 0 <= j < |s| ensures OccursAt(s, [c], j) <==> s[j] == c {
      assert s[j..j + 1] == [s[j]];
    }
  }

  predicate Contains(s: string, sep: string) {
    Index(s, sep) >= 0
  }

  predicate HasPrefix(s: string, prefix: string) {
    prefix <= s
  }

  /** `strings.Split` for a non-empty separator. */
  function Split(s: string, sep: string): (parts: seq<string>)
    requires sep != ""
    ensures |parts| >= 1
    decreases |s|
  {
    var i := Index(s, sep);
    if i < 0 then [s] else [s[..i]] + Split(s[i + |sep|..], sep)
  }

  function Join(parts: seq<string>, sep: string): string
    requires parts != []
  {
    if |parts| == 1 then parts[0] else parts[0] + sep + Join(parts[1..], sep)
  }

  /** The parts, joined by the separator, are the text, and no part contains the separator. */
  lemma {:induction false} SplitIs(s: string, sep: string)
    requires sep != ""
    ensures Join(Split(s, sep), sep) == s
    ensures forall k | 0 <= k < |Split(s, sep)| :: !Contains(Split(s, sep)[k], sep)
    decreases |s|
  {
    hide Index;
    var i := Index(s, sep);
    if i >= 0 {
      var rest := Split(s[i + |sep|..], sep);
      SplitIs(s[i + |sep|..], sep);
      assert s == s[..i] + sep + s[i + |sep|..];
      assert ([s[..i]] + rest)[1..] == rest;
      NoneBefore(s, sep);
    }
  }

  lemma NoneBefore(s: string, sep: string)
    requires sep != "" && Index(s, sep) >= 0
    ensures !Contains(s[..Index(s, sep)], sep)
  {
    var i := Index(s, sep);
    forall j ensures !OccursAt(s[..i], sep, j) {
      if 0 <= j <= i - |sep| {
        assert s[..i][j..j + |sep|] == s[j..j + |sep|];
        assert !OccursAt(s, sep, j);
      }
    }
  }

  /** `strings.SplitN` with a limit of two parts. */
  function SplitOnce(s: string, sep: string): (parts: seq<string>)
    requires sep != ""
    ensures 1 <= |parts| <= 2
  {
    var i := Index(s, sep);
    if i < 0 then [s] else [s[..i], s[i + |sep|..]]
  }

  // ----- trimming -----------------------------------------------------------------------------

  /** `unicode.IsSpace`. */
  predicate IsSpace(c: char) {
    || '\t' <= c <= '\r'
    || c == ' '
    || c in "\U{85}\U{A0}\U{1680}\U{2028}\U{2029}\U{202F}\U{205F}\U{3000}"
    || '\U{2000}' <= c <= '\U{200A}'
  }

  predicate IsQuote(c: char) {
    c == '"'
  }

  function Trim(s: string, cut: char -> bool): (t: string)
    ensures |t| <= |s|
    decreases |s|
  {
    if s == "" then s
    else if cut(s[0]) then Trim(s[1..], cut)
    else if cut(s[|s| - 1]) then Trim(s[..|s| - 1], cut)
    else s
  }

  /** Trimming cuts the longest run at either end. */
  lemma {:induction false} TrimIs(s: string, cut: char -> bool) returns (i: nat, j: nat)
    ensures i <= j <= |s| && Trim(s, cut) == s[i..j]
    ensures forall k | 0 <= k < |s| && !(i <= k < j) :: cut(s[k])
    ensures i < j ==> !cut(s[i]) && !cut(s[j - 1])
    decreases |s|
  {
    i, j := 0, |s|;
    if s != "" && cut(s[0]) {
      i, j := TrimIs(s[1..], cut);
      assert s[1..][i..j] == s[i + 1..j + 1];
      assert forall k | 0 < k < |s| :: s[k] == s[1..][k - 1];
      i, j := i + 1, j + 1;
    } else if s != "" && cut(s[|s| - 1]) {
      i, j := TrimIs(s[..|s| - 1], cut);
      assert s[..|s| - 1][i..j] == s[i..j];
    }
  }

  function TrimSpace(s: string): string {
    Trim(s, IsSpace)
  }

  function TrimQuotes(s: string): string {
    Trim(s, IsQuote)
  }
}
