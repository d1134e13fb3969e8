/** The text of script results: hexadecimal bytes, values and rows. */
module ScriptText {
  import opened Wrappers

  type Byte = x: int | 0 <= x < 256

  // ---------------------------------------------------------------- hexadecimal

  function Digit(n: nat): (c: char)
    requires n < 16
    ensures IsDigit(c) && DigitValue(c) == Some(n)
  {
    if n < 10 then '0' + n as char else 'a' + (n - 10) as char
  }

  /** The lower-case digits the printer uses. */
  predicate IsDigit(c: char) { '0' <= c <= '9' || 'a' <= c <= 'f' }

  /** The digits the integer parser takes, in either case. */
  function DigitValue(c: char): (v: Option<nat>)
    ensures v.Some? ==> v.value < 16
  {
    if '0' <= c <= '9' then Some((c - '0') as nat)
    else if 'a' <= c <= 'f' then Some((c - 'a') as nat + 10)
    else if 'A' <= c <= 'F' then Some((c - 'A') as nat + 10)
    else None
  }

  lemma DigitPrints(c: char)
    requires IsDigit(c)
    ensures DigitValue(c).Some? && Digit(DigitValue(c).value) == c
  {
  }

  /** Two characters read as an integer in base 16; a sign may take the place of the first. */
  function ParsePair(c: char, d: char): Option<Byte> {
    var low := DigitValue(d);
    if low.None? then None
    else if DigitValue(c).Some? then Some(16 * DigitValue(c).value + low.value)
    else if c == '+' then Some(low.value)
    else if c == '-' then Some((256 - low.value) % 256)
    else None
  }

  function Hex(b: seq<Byte>): (s: string)
    ensures |s| == 2 * |b|
    ensures forall i :: 0 <= i < |b| ==> s[2 * i] == Digit(b[i] / 16) && s[2 * i + 1] == Digit(b[i] % 16)
  {
    if b == [] then ""
    else Hex(b[..|b| - 1]) + [Digit(b[|b| - 1] / 16), Digit(b[|b| - 1] % 16)]
  }

  method ToHex(b: seq<Byte>) returns (s: string)
    ensures s == Hex(b)
  {
    s := "";
    for i := 0 to |b|
      invariant s == Hex(b[..i])
    {
      assert b[..i + 1][..i] == b[..i];
      s := s + [Digit(b[i] / 16), Digit(b[i] % 16)];
    }
    assert b[..|b|] == b;
  }

  /** Every pair of characters parses; a last odd character is not looked at. */
  predicate Parses(h: string) {
    forall i :: 0 <= i < |h| / 2 ==> ParsePair(h[2 * i], h[2 * i + 1]).Some?
  }

  function Unhex(h: string): (b: Option<seq<Byte>>) {
    if Parses(h)
    then Some(seq(|h| / 2, i requires 0 <= i < |h| / 2 && Parses(h) => ParsePair(h[2 * i], h[2 * i + 1]).value))
    else None
  }

  method FromHex(h: string) returns (b: Option<seq<Byte>>)
    ensures b == Unhex(h)
  {
    var bytes: seq<Byte> := [];
    for i := 0 to |h| / 2
      invariant |bytes| == i
      invariant forall j :: 0 <= j < i ==> ParsePair(h[2 * j], h[2 * j + 1]) == Some(bytes[j])
    {
      var x := ParsePair(h[2 * i], h[2 * i + 1]);
      if x.None? { return None; }
      bytes := bytes + [x.value];
    }
    assert Parses(h);
    assert bytes == Unhex(h).value;
    return Some(bytes);
  }

  lemma ByteParses(x: Byte)
    ensures ParsePair(Digit(x / 16), Digit(x % 16)) == Some(x)
  {
  }

  /** What is printed is read back. */
  lemma HexParses(b: seq<Byte>)
    ensures Unhex(Hex(b)) == Some(b)
  {
    hide Hex, ParsePair, Digit;
    var h := Hex(b);
    forall i | 0 <= i < |b| ensures ParsePair(h[2 * i], h[2 * i + 1]) == Some(b[i]) {
      ByteParses(b[i]);
    }
    assert Unhex(h).value == b;
  }

  lemma PairPrints(h: string, b: seq<Byte>, i: nat)
    requires 2 * i + 1 < |h| && i < |b| && (forall c :: c in h ==> IsDigit(c))
    requires ParsePair(h[2 * i], h[2 * i + 1]) == Some(b[i])
    ensures Hex(b)[2 * i] == h[2 * i] && Hex(b)[2 * i + 1] == h[2 * i + 1]
  {
    hide Hex;
    assert h[2 * i] in h && h[2 * i + 1] in h;
    DigitPrints(h[2 * i]);
    DigitPrints(h[2 * i + 1]);
  }

  lemma DigitsParse(h: string)
    requires forall c :: c in h ==> IsDigit(c)
    ensures Parses(h)
  {
    forall i | 0 <= i < |h| / 2 ensures ParsePair(h[2 * i], h[2 * i + 1]).Some? {
      assert h[2 * i] in h && h[2 * i + 1] in h;
      DigitPrints(h[2 * i]);
      DigitPrints(h[2 * i + 1]);
    }
  }

  /** Exactly the even-length strings of lower-case digits are what the printer writes. */
  lemma UnhexPrints(h: string)
    ensures Unhex(h).Some? && Hex(Unhex(h).value) == h <==> |h| % 2 == 0 && forall c :: c in h ==> IsDigit(c)
  {
    hide Hex, ParsePair, IsDigit, Digit;
    if |h| % 2 == 0 && forall c :: c in h ==> IsDigit(c) {
      DigitsParse(h);
      var b := Unhex(h).value;
      forall k | 0 <= k < |h| ensures Hex(b)[k] == h[k] {
        PairPrints(h, b, k / 2);
        assert k == 2 * (k / 2) || k == 2 * (k / 2) + 1;
      }
      assert Hex(b) == h;
    } else if Unhex(h).Some? && Hex(Unhex(h).value) == h {
      OnlyDigits(Unhex(h).value);
      assert false;
    }
  }

  lemma {:induction false} OnlyDigits(b: seq<Byte>)
    ensures forall c :: c in Hex(b) ==> IsDigit(c)
  {
    if b != [] { OnlyDigits(b[..|b| - 1]); }
  }

  // ---------------------------------------------------------------- values

  const SHOWN: nat := 64

  function Decimal(n: nat): string {
    if n < 10 then ['0' + n as char] else Decimal(n / 10) + ['0' + (n % 10) as char]
  }

  /** An absent value, one of up to 64 bytes in full, or a longer one as length and digest. */
  function Value(sha: seq<Byte> -> seq<Byte>, v: Option<seq<Byte>>): string {
    match v
    case None => "null"
    case Some(b) => if |b| <= SHOWN then Hex(b) else "len=" + Decimal(|b|) + ":sha256=" + Hex(sha(b))
  }

  function ParseValue(text: string): Option<Option<seq<Byte>>> {
    if text == "null" then Some(None)
    else match Unhex(text)
         case Some(b) => Some(Some(b))
         case None => None
  }

  ghost predicate Short(v: Option<seq<Byte>>) { v.Some? ==> |v.value| <= 64 }

  /** A value of at most 64 bytes is read back; absent and empty read differently. */
  lemma ValueRoundTrip(sha: seq<Byte> -> seq<Byte>, v: Option<seq<Byte>>)
    requires Short(v)
    ensures ParseValue(Value(sha, v)) == Some(v)
    ensures forall c :: c in Value(sha, v) ==> c != ' ' && c != ']' && c != '='
  {
    match v
    case None =>
    case Some(b) =>
      HexParses(b);
      OnlyDigits(b);
      assert Value(sha, v) == "null" ==> 'n' in Hex(b) by { assert "null"[0] == 'n'; }
  }

  // ---------------------------------------------------------------- long values

  predicate IsDecimal(c: char) { '0' <= c <= '9' }

  /** A decimal number, or nothing if some character is not a digit. */
  function ParseDecimal(text: string): Option<nat> {
    if text == "" then Some(0)
    else
      var i := |text| - 1;
      match ParseDecimal(text[..i])
      case Some(n) => if IsDecimal(text[i]) then Some(10 * n + (text[i] - '0') as nat) else None
      case None => None
  }

  /** A number is printed in digits, without a leading zero, and read back. */
  lemma {:induction false} DecimalRoundTrip(n: nat)
    ensures ParseDecimal(Decimal(n)) == Some(n)
    ensures Decimal(n) != "" && forall c :: c in Decimal(n) ==> IsDecimal(c)
    ensures Decimal(n)[0] == '0' ==> Decimal(n) == "0"
  {
    var d := Decimal(n);
    if n < 10 {
      assert d[..0] == "" && ParseDecimal("") == Some(0);
    } else {
      DecimalRoundTrip(n / 10);
      assert d[..|d| - 1] == Decimal(n / 10);
      if Decimal(n / 10)[0] == '0' { ZeroIsZero(n / 10); }
    }
  }

  lemma ZeroIsZero(n: nat)
    requires ParseDecimal(Decimal(n)) == Some(n) && Decimal(n) == "0"
    ensures n == 0
  {
    assert "0"[..0] == "" && ParseDecimal("") == Some(0);
  }

  /** Length and digest of a long value: a number after "len=", hexadecimal digits after ":sha256=". */
  function ParseLong(text: string): Option<(nat, seq<Byte>)> {
    if !("len=" <= text) then None
    else
      var rest := text[4..];
      var i := Find(rest, ':');
      if !(":sha256=" <= rest[i..]) then None
      else match (ParseDecimal(rest[..i]), Unhex(rest[i + 8..]))
        case (Some(n), Some(digest)) => Some((n, digest))
        case _ => None
  }

  /** A value of more than 64 bytes shows its length and its digest, and reads as no short value. */
  lemma LongValue(sha: seq<Byte> -> seq<Byte>, b: seq<Byte>)
    requires |b| > 64
    ensures ParseLong(Value(sha, Some(b))) == Some((|b|, sha(b)))
    ensures ParseValue(Value(sha, Some(b))) == None
  {
    hide Hex, Unhex, Decimal, ParseDecimal, ParseLong;
    var number, digest := Decimal(|b|), Hex(sha(b));
    var text := Value(sha, Some(b));
    DecimalRoundTrip(|b|);
    HexParses(sha(b));
    LongParts(number, digest, |b|, sha(b));
    assert text == "len=" + number + ":sha256=" + digest;
    NotHex(text);
  }

  lemma LongParts(number: string, digest: string, n: nat, d: seq<Byte>)
    requires ParseDecimal(number) == Some(n) && (forall c :: c in number ==> IsDecimal(c)) && Unhex(digest) == Some(d)
    ensures ParseLong("len=" + number + ":sha256=" + digest) == Some((n, d))
  {
    hide Unhex, ParseDecimal;
    var text, mark := "len=" + number + ":sha256=" + digest, ":sha256=";
    var rest := number + mark + digest;
    assert text[4..] == rest;
    AfterNumber(number, digest);
    assert rest[..|number|] == number && rest[|number|..] == mark + digest && rest[|number| + 8..] == digest;
  }

  lemma AfterNumber(number: string, digest: string)
    requires forall c :: c in number ==> IsDecimal(c)
    ensures Find(number + ":sha256=" + digest, ':') == |number|
  {
    FindAt(number, ':', "sha256=" + digest);
    assert number + [':'] + ("sha256=" + digest) == number + ":sha256=" + digest;
  }

  lemma NotHex(text: string)
    requires "len=" <= text
    ensures Unhex(text).None? && text != "null"
  {
    assert text[0] == "len="[0] && text[1] == "len="[1] && text[3] == '=';
    assert ParsePair(text[2 * 0], text[2 * 0 + 1]).None?;
  }

  // ---------------------------------------------------------------- rows

  datatype Row = Row(key: seq<Byte>, value: Option<seq<Byte>>)

  function Item(sha: seq<Byte> -> seq<Byte>, row: Row): string { Hex(row.key) + "=" + Value(sha, row.value) }

  function Join(sha: seq<Byte> -> seq<Byte>, rows: seq<Row>): string {
    if rows == [] then ""
    else if |rows| == 1 then Item(sha, rows[0])
    else Item(sha, rows[0]) + " " + Join(sha, rows[1..])
  }

  function Stripped(rows: seq<Row>, strip: nat): (r: seq<Row>)
    requires forall i :: 0 <= i < |rows| ==> strip <= |rows[i].key|
    ensures |r| == |rows|
  {
    seq(|rows|, i requires 0 <= i < |rows| => rows[i].(key := rows[i].key[strip..]))
  }

  lemma {:induction false} JoinAppend(sha: seq<Byte> -> seq<Byte>, rows: seq<Row>, row: Row)
    ensures Join(sha, rows + [row]) == (if rows == [] then "" else Join(sha, rows) + " ") + Item(sha, row)
    ensures rows != [] ==> Join(sha, rows) != ""
  {
    hide Hex, Value;
    if rows != [] {
      JoinAppend(sha, rows[1..], row);
      assert (rows + [row])[1..] == rows[1..] + [row];
    }
  }

  lemma EmptyJoin(sha: seq<Byte> -> seq<Byte>)
    ensures Join(sha, []) == ""
  {
  }

  lemma StripOneMore(rows: seq<Row>, strip: nat, i: nat)
    requires i < |rows| && forall j :: 0 <= j <= i ==> strip <= |rows[j].key|
    ensures Stripped(rows[..i + 1], strip) ==
            Stripped(rows[..i], strip) + [rows[i].(key := rows[i].key[strip..])]
  {
  }

  /** The rows in brackets, or nothing when some key is shorter than the prefix to strip. */
  method Kvs(sha: seq<Byte> -> seq<Byte>, rows: seq<Row>, strip: nat) returns (text: Option<string>)
    ensures text.Some? <==> forall i :: 0 <= i < |rows| ==> strip <= |rows[i].key|
    ensures text.Some? ==> text.value == "[" + Join(sha, Stripped(rows, strip)) + "]"
  {
    hide Hex, Join, Value;
    var sb := "[";
    assert Join(sha, []) == "" by { EmptyJoin(sha); }
    for i := 0 to |rows|
      invariant forall j :: 0 <= j < i ==> strip <= |rows[j].key|
      invariant sb == "[" + Join(sha, Stripped(rows[..i], strip))
    {
      if |rows[i].key| < strip { return None; }
      var stripped := rows[i].(key := rows[i].key[strip..]);
      JoinAppend(sha, Stripped(rows[..i], strip), stripped);
      StripOneMore(rows, strip, i);
      if |sb| > 1 { sb := sb + " "; }
      var key := ToHex(stripped.key);
      sb := sb + key + "=" + Value(sha, stripped.value);
    }
    assert rows[..|rows|] == rows;
    return Some(sb + "]");
  }

  // ---------------------------------------------------------------- reading rows back

  /** The first place of a character, or the length. */
  function Find(s: string, c: char): (i: nat)
    ensures i <= |s| && (forall j :: 0 <= j < i ==> s[j] != c) && (i < |s| ==> s[i] == c)
  {
    if s == [] || s[0] == c then 0 else 1 + Find(s[1..], c)
  }

  lemma FindAt(a: string, c: char, b: string)
    requires c !in a
    ensures Find(a + [c] + b, c) == |a|
  {
    var s, i := a + [c] + b, Find(a + [c] + b, c);
    assert s[|a|] == c && forall j :: 0 <= j < |a| ==> s[j] == a[j];
    assert i >= |a|;
  }

  function ParseItem(text: string): Option<Row> {
    var i := Find(text, '=');
    if i == |text| then None
    else match (Unhex(text[..i]), ParseValue(text[i + 1..]))
         case (Some(key), Some(value)) => Some(Row(key, value))
         case _ => None
  }

  function ParseItems(text: string): Option<seq<Row>> {
    if text == "" then Some([])
    else
      var i := Find(text, ' ');
      match (ParseItem(text[..i]), if i == |text| then Some([]) else ParseItems(text[i + 1..]))
      case (Some(row), Some(rows)) => Some([row] + rows)
      case _ => None
  }

  function ParseKvs(text: string): Option<seq<Row>> {
    if |text| < 2 || text[0] != '[' || text[|text| - 1] != ']' then None
    else ParseItems(text[1..|text| - 1])
  }

  lemma ItemRoundTrip(sha: seq<Byte> -> seq<Byte>, row: Row)
    requires Short(row.value)
    ensures ParseItem(Item(sha, row)) == Some(row)
    ensures ' ' !in Item(sha, row) && Item(sha, row) != ""
  {
    var key, value := Hex(row.key), Value(sha, row.value);
    HexParses(row.key);
    OnlyDigits(row.key);
    ValueRoundTrip(sha, row.value);
    FindAt(key, '=', value);
    var item := key + ['='] + value;
    assert item[..|key|] == key && item[|key| + 1..] == value;
  }

  lemma ParseOne(item: string, row: Row)
    requires item != "" && ' ' !in item && ParseItem(item) == Some(row)
    ensures ParseItems(item) == Some([row])
  {
    hide ParseItem;
    assert Find(item, ' ') == |item|;
    assert item[..|item|] == item && [row] + [] == [row];
  }

  lemma ParseMore(item: string, row: Row, rest: string, rows: seq<Row>)
    requires ' ' !in item && ParseItem(item) == Some(row) && ParseItems(rest) == Some(rows)
    ensures ParseItems(item + " " + rest) == Some([row] + rows)
  {
    hide ParseItem;
    var text := item + [' '] + rest;
    FindAt(item, ' ', rest);
    assert text[..|item|] == item && text[|item| + 1..] == rest;
  }

  lemma {:induction false} JoinRoundTrip(sha: seq<Byte> -> seq<Byte>, rows: seq<Row>)
    requires forall i :: 0 <= i < |rows| ==> Short(rows[i].value)
    ensures ParseItems(Join(sha, rows)) == Some(rows)
  {
    hide Item, ParseItem;
    if rows != [] {
      var item := Item(sha, rows[0]);
      ItemRoundTrip(sha, rows[0]);
      if |rows| == 1 {
        ParseOne(item, rows[0]);
        assert [rows[0]] == rows;
      } else {
        JoinRoundTrip(sha, rows[1..]);
        ParseMore(item, rows[0], Join(sha, rows[1..]), rows[1..]);
        assert [rows[0]] + rows[1..] == rows;
      }
    }
  }

  /** A parser recovers every row with its stripped key and its value of at most 64 bytes. */
  lemma KvsRoundTrip(sha: seq<Byte> -> seq<Byte>, rows: seq<Row>, strip: nat)
    requires forall i :: 0 <= i < |rows| ==> strip <= |rows[i].key| && Short(rows[i].value)
    ensures ParseKvs("[" + Join(sha, Stripped(rows, strip)) + "]") == Some(Stripped(rows, strip))
  {
    var text := "[" + Join(sha, Stripped(rows, strip)) + "]";
    JoinRoundTrip(sha, Stripped(rows, strip));
    assert text[1..|text| - 1] == Join(sha, Stripped(rows, strip));
  }
}
