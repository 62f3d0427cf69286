/**
  Bencode values, their encoding, and a recursive-descent reading of the
  language that include/bencode.hpp accepts. BEP 3, section "bencoding",
  describes the values; the decoder accepts more texts than it does: leading
  zeros, missing digits, "-0" and dictionary keys in any order.
 */
module Bencode {
  import opened Bytes

  const INT := 105 // i
  const LIST := 108 // l
  const DICT := 100 // d
  const END := 101 // e
  const COLON := 58 // :
  const MINUS := 45 // -
  const ZERO := 48 // 0

  const INT64_MIN := -0x8000_0000_0000_0000
  const INT64_MAX := 0x7fff_ffff_ffff_ffff
  const UINT64_MAX := 0xffff_ffff_ffff_ffff

  type int64 = n: int | INT64_MIN <= n <= INT64_MAX

  datatype Entry = Entry(key: seq<byte>, value: Data)

  /** A dictionary is an ordered map: its entries are in strictly ascending order of their keys. */
  datatype Data =
    | Integer(value: int)
    | Str(bytes: seq<byte>)
    | List(items: seq<Data>)
    | Dict(entries: seq<Entry>)

  /** The order of std::string: by the first byte that differs, a proper prefix first. */
  predicate Less(a: seq<byte>, b: seq<byte>) {
    b != [] && (a == [] || a[0] < b[0] || (a[0] == b[0] && Less(a[1..], b[1..])))
  }

  lemma {:induction false} LessIsTotal(a: seq<byte>, b: seq<byte>)
    ensures !(Less(a, b) && Less(b, a))
    ensures Less(a, b) || Less(b, a) || a == b
    ensures !Less(a, a)
  {
    if a != [] && b != [] && a[0] == b[0] {
      LessIsTotal(a[1..], b[1..]);
      assert a == [a[0]] + a[1..] && b == [b[0]] + b[1..];
    }
    if a == [] {
    } else {
      LessIsTotal(a[1..], a[1..]);
    }
  }

  lemma {:induction false} LessIsTransitive(a: seq<byte>, b: seq<byte>, c: seq<byte>)
    requires Less(a, b) && Less(b, c)
    ensures Less(a, c)
  {
    if a != [] && a[0] == b[0] == c[0] {
      LessIsTransitive(a[1..], b[1..], c[1..]);
    }
  }

  /** The value of the entry with the given key. */
  function Lookup(entries: seq<Entry>, key: seq<byte>): Option<Data> {
    if entries == [] then None
    else if entries[0].key == key then Some(entries[0].value)
    else Lookup(entries[1..], key)
  }

  predicate Sorted(entries: seq<Entry>) {
    forall i, j :: 0 <= i < j < |entries| ==> Less(entries[i].key, entries[j].key)
  }

  /** The values a program can hold: 64-bit integers, strings whose length fits a pointer difference, ordered maps. */
  predicate Representable(d: Data) {
    match d
    case Integer(n) => INT64_MIN <= n <= INT64_MAX
    case Str(s) => |s| <= INT64_MAX
    case List(items) => forall i :: 0 <= i < |items| ==> Representable(items[i])
    case Dict(entries) =>
      && Sorted(entries)
      && forall i :: 0 <= i < |entries| ==> |entries[i].key| <= INT64_MAX && Representable(entries[i].value)
  }

  // ----- Encoding

  function Digits(n: nat): (s: seq<byte>)
    ensures s != []
  {
    if n < 10 then [ZERO + n] else Digits(n / 10) + [ZERO + n % 10]
  }

  function Decimal(n: int): seq<byte> {
    if n < 0 then [MINUS] + Digits(-n) else Digits(n)
  }

  function EncodeStr(s: seq<byte>): seq<byte> {
    Digits(|s|) + [COLON] + s
  }

  function Encode(d: Data): (s: seq<byte>)
    decreases d, 1
  {
    match d
    case Integer(n) => [INT] + Decimal(n) + [END]
    case Str(s) => EncodeStr(s)
    case List(items) => [LIST] + EncodeItems(items) + [END]
    case Dict(entries) => [DICT] + EncodeEntries(entries) + [END]
  }

  function EncodeItems(items: seq<Data>): seq<byte>
    decreases items, 0
  {
    if items == [] then [] else Encode(items[0]) + EncodeItems(items[1..])
  }

  function EncodeEntries(entries: seq<Entry>): seq<byte>
    decreases entries, 0
  {
    if entries == [] then []
    else EncodeStr(entries[0].key) + Encode(entries[0].value) + EncodeEntries(entries[1..])
  }

  // ----- Numbers

  /** The byte at `p`; a dereference at the end yields a byte that matches nothing. */
  function Peek(s: seq<byte>, p: nat): int {
    if p < |s| then s[p] else -1
  }

  predicate IsDigit(c: int) {
    ZERO <= c <= ZERO + 9
  }

  /** Where the run of digits that starts at `p` ends. */
  function RunEnd(s: seq<byte>, p: nat): (q: nat)
    requires p <= |s|
    ensures p <= q <= |s| && !IsDigit(Peek(s, q))
    ensures forall k :: p <= k < q ==> IsDigit(s[k])
    decreases |s| - p
  {
    if IsDigit(Peek(s, p)) then RunEnd(s, p + 1) else p
  }

  /** The number a run of digits denotes; no digits denote zero. */
  function Value(digits: seq<byte>): (n: nat)
    requires forall k :: 0 <= k < |digits| ==> IsDigit(digits[k])
  {
    if digits == [] then 0
    else
      var last: int := digits[|digits| - 1];
      assert IsDigit(digits[|digits| - 1]);
      Value(digits[..|digits| - 1]) * 10 + (last - ZERO)
  }

  function Signed(negative: bool, n: int): int {
    if negative then -n else n
  }

  // ----- Recursive descent

  datatype Reading<+T> = Accepted(value: T, next: nat) | Rejected

  /**
    A number of at most `most` digits, with the given sign and range. Up to
    `most - 1` digits must be followed by another byte.
   */
  function ParseDigits(s: seq<byte>, p: nat, negative: bool, most: nat, low: int, high: int): (r: Reading<int>)
    requires p <= |s|
    ensures r.Accepted? ==> p <= r.next <= |s|
  {
    var q := RunEnd(s, p);
    var value := Signed(negative, Value(s[p..q]));
    if q - p > most || (q - p < most && q == |s|) || !(low <= value <= high) then Rejected
    else Accepted(value, q)
  }

  function ParseInt(s: seq<byte>, p: nat): (r: Reading<Data>)
    requires p < |s|
    ensures r.Accepted? ==> p < r.next <= |s|
  {
    var negative := Peek(s, p + 1) == MINUS;
    var n := ParseDigits(s, if negative then p + 2 else p + 1, negative, 19, INT64_MIN, INT64_MAX);
    if n.Rejected? || Peek(s, n.next) != END then Rejected else Accepted(Integer(n.value), n.next + 1)
  }

  function ParseStr(s: seq<byte>, p: nat): (r: Reading<seq<byte>>)
    requires p <= |s|
    ensures r.Accepted? ==> p < r.next <= |s|
  {
    var n := ParseDigits(s, p, false, 20, 0, UINT64_MAX);
    if n.Rejected? || Peek(s, n.next) != COLON || n.value > |s| - (n.next + 1) then Rejected
    else Accepted(s[n.next + 1..n.next + 1 + n.value], n.next + 1 + n.value)
  }

  predicate HasKey(entries: seq<Entry>, key: seq<byte>) {
    exists i :: 0 <= i < |entries| && entries[i].key == key
  }

  /** `std::map::emplace` of a key that is not there. */
  function Insert(entries: seq<Entry>, key: seq<byte>, value: Data): (r: seq<Entry>)
    ensures |r| == |entries| + 1
  {
    if entries == [] || Less(key, entries[0].key) then [Entry(key, value)] + entries
    else [entries[0]] + Insert(entries[1..], key, value)
  }

  /** One value at `p`. */
  function Parse(s: seq<byte>, p: nat): (r: Reading<Data>)
    requires p <= |s|
    ensures r.Accepted? ==> p < r.next <= |s|
    decreases |s| - p, 0
  {
    var c := Peek(s, p);
    if c == INT then ParseInt(s, p)
    else if c == LIST then ParseItems(s, p + 1, [])
    else if c == DICT then ParseEntries(s, p + 1, [])
    else if IsDigit(c) then
      match ParseStr(s, p)
      case Rejected => Rejected
      case Accepted(str, q) => Accepted(Str(str), q)
    else Rejected
  }

  /** The rest of a list whose first items are `items`. */
  function ParseItems(s: seq<byte>, p: nat, items: seq<Data>): (r: Reading<Data>)
    requires p <= |s|
    ensures r.Accepted? ==> p < r.next <= |s|
    decreases |s| - p, 1
  {
    if Peek(s, p) == END then Accepted(List(items), p + 1)
    else
      match Parse(s, p)
      case Rejected => Rejected
      case Accepted(d, q) => ParseItems(s, q, items + [d])
  }

  /** The rest of a dictionary that holds `entries` so far. A key must not occur twice. */
  function ParseEntries(s: seq<byte>, p: nat, entries: seq<Entry>): (r: Reading<Data>)
    requires p <= |s|
    ensures r.Accepted? ==> p < r.next <= |s|
    decreases |s| - p, 1
  {
    if Peek(s, p) == END then Accepted(Dict(entries), p + 1)
    else if !IsDigit(Peek(s, p)) then Rejected
    else
      match ParseStr(s, p)
      case Rejected => Rejected
      case Accepted(key, q) =>
        match Parse(s, q)
        case Rejected => Rejected
        case Accepted(d, n) =>
          if HasKey(entries, key) then Rejected else ParseEntries(s, n, Insert(entries, key, d))
  }
}
