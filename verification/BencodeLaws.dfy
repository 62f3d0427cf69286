/** What holds between the encoder and the recursive-descent reading. */
module BencodeLaws {
  import opened Bytes
  import opened Bencode

  /** The text `e` stands at `p` in `s`, with anything before and after it. */
  predicate Holds(s: seq<byte>, p: nat, e: seq<byte>) {
    p + |e| <= |s| && s[p..p + |e|] == e
  }

  lemma HoldsConcat(s: seq<byte>, p: nat, a: seq<byte>, b: seq<byte>)
    ensures Holds(s, p, a + b) <==> Holds(s, p, a) && Holds(s, p + |a|, b)
  {
    if Holds(s, p, a + b) {
      assert s[p..p + |a|] == s[p..p + |a + b|][..|a|] == a;
      assert s[p + |a|..p + |a| + |b|] == s[p..p + |a + b|][|a|..] == b;
    }
    if Holds(s, p, a) && Holds(s, p + |a|, b) {
      assert s[p..p + |a + b|] == s[p..p + |a|] + s[p + |a|..p + |a| + |b|];
    }
  }

  lemma HoldsByte(s: seq<byte>, p: nat, c: byte)
    ensures Holds(s, p, [c]) <==> Peek(s, p) == c
  {
    if p < |s| {
      assert s[p..p + 1] == [s[p]];
    }
  }

  lemma HoldsThree(s: seq<byte>, p: nat, a: seq<byte>, b: seq<byte>, c: seq<byte>)
    ensures Holds(s, p, a + b + c) <==> Holds(s, p, a) && Holds(s, p + |a|, b) && Holds(s, p + |a| + |b|, c)
  {
    HoldsConcat(s, p, a + b, c);
    HoldsConcat(s, p, a, b);
  }

  lemma HoldsFirst(s: seq<byte>, p: nat, e: seq<byte>)
    requires Holds(s, p, e) && e != []
    ensures Peek(s, p) == e[0]
  {
    assert s[p] == s[p..p + |e|][0];
  }

  // ----- The order of keys

  /** The first byte that differs, at `k`, decides. */
  predicate DiffersAt(a: seq<byte>, b: seq<byte>, k: nat) {
    k < |a| && k < |b| && a[..k] == b[..k] && a[k] < b[k]
  }

  /** Keys are ordered by the first byte that differs, and a proper prefix comes first. */
  lemma {:induction false} LessIsByFirstDifference(a: seq<byte>, b: seq<byte>)
    ensures Less(a, b) <==> a < b || exists k: nat :: DiffersAt(a, b, k)
  {
    if a == [] || b == [] {
    } else if a[0] != b[0] {
      if a[0] < b[0] {
        assert DiffersAt(a, b, 0);
      }
      forall k: nat
        ensures DiffersAt(a, b, k) ==> k == 0
      {
        FirstDecides(a, b, k);
      }
    } else {
      LessIsByFirstDifference(a[1..], b[1..]);
      PrefixOfRest(a, b);
      forall k: nat
        ensures DiffersAt(a[1..], b[1..], k) <==> DiffersAt(a, b, k + 1)
      {
        DifferenceOfRest(a, b, k);
      }
      assert !DiffersAt(a, b, 0);
      if k: nat :| DiffersAt(a, b, k) {
        assert DiffersAt(a[1..], b[1..], k - 1);
      }
      if k: nat :| DiffersAt(a[1..], b[1..], k) {
        assert DiffersAt(a, b, k + 1);
      }
    }
  }

  lemma FirstDecides(a: seq<byte>, b: seq<byte>, k: nat)
    requires a != [] && b != [] && a[0] != b[0]
    ensures DiffersAt(a, b, k) ==> k == 0
  {
    if 0 < k < |a| && k < |b| {
      assert a[..k][0] == a[0] && b[..k][0] == b[0];
    }
  }

  lemma PrefixOfRest(a: seq<byte>, b: seq<byte>)
    requires a != [] && b != [] && a[0] == b[0]
    ensures a < b <==> a[1..] < b[1..]
  {
    assert a == [a[0]] + a[1..] && b == [b[0]] + b[1..];
    if a[1..] < b[1..] {
      assert b[1..][..|a| - 1] == a[1..];
      assert b[..|a|] == a;
    }
    if a < b {
      assert b[..|a|] == a;
      assert b[1..][..|a| - 1] == b[..|a|][1..];
    }
  }

  lemma DifferenceOfRest(a: seq<byte>, b: seq<byte>, k: nat)
    requires a != [] && b != [] && a[0] == b[0]
    ensures DiffersAt(a[1..], b[1..], k) <==> DiffersAt(a, b, k + 1)
  {
    if k + 1 < |a| && k + 1 < |b| {
      assert a[..k + 1] == [a[0]] + a[1..][..k] && b[..k + 1] == [b[0]] + b[1..][..k];
      assert a[..k + 1][1..] == a[1..][..k] && b[..k + 1][1..] == b[1..][..k];
    }
  }

  // ----- Numbers

  lemma {:induction false} DigitsValue(n: nat)
    ensures forall k :: 0 <= k < |Digits(n)| ==> IsDigit(Digits(n)[k])
    ensures Value(Digits(n)) == n
  {
    if n >= 10 {
      DigitsValue(n / 10);
      assert Digits(n)[..|Digits(n)| - 1] == Digits(n / 10);
    } else {
      assert Digits(n)[..0] == [];
    }
  }

  function Power10(k: nat): nat {
    if k == 0 then 1 else 10 * Power10(k - 1)
  }

  /** A number below 10^k has at most k digits. */
  lemma {:induction false} DigitsLength(n: nat, k: nat)
    requires n < Power10(k) && k > 0
    ensures |Digits(n)| <= k
  {
    if n >= 10 {
      DigitsLength(n / 10, k - 1);
    }
  }

  lemma Powers()
    ensures Power10(19) == 10_000_000_000_000_000_000
    ensures Power10(20) == 100_000_000_000_000_000_000
  {
    assert Power10(5) == 100_000;
    assert Power10(10) == 10_000_000_000;
    assert Power10(15) == 1_000_000_000_000_000;
  }

  lemma WordDigits(n: nat)
    ensures n <= INT64_MAX + 1 ==> |Digits(n)| <= 19
    ensures n <= UINT64_MAX ==> |Digits(n)| <= 20
  {
    Powers();
    if n <= INT64_MAX + 1 {
      DigitsLength(n, 19);
    } else if n <= UINT64_MAX {
      DigitsLength(n, 20);
    }
  }

  /** The buffer of write_integer, digits10 + 2 bytes long, is large enough for every value of its type. */
  lemma IntegerBufferSuffices(n: int)
    ensures INT64_MIN <= n <= INT64_MAX ==> |Decimal(n)| <= 18 + 2
    ensures 0 <= n <= UINT64_MAX ==> |Decimal(n)| <= 19 + 2
  {
    WordDigits(if n < 0 then -n else n);
  }

  /** A run of digits ends at the first byte that is none. */
  lemma {:induction false} RunEndsAt(s: seq<byte>, p: nat, q: nat)
    requires p <= q <= |s|
    requires forall k :: p <= k < q ==> IsDigit(s[k])
    requires !IsDigit(Peek(s, q))
    ensures RunEnd(s, p) == q
    decreases q - p
  {
    if p < q {
      RunEndsAt(s, p + 1, q);
    }
  }

  /** Reading the digits of `n`, up to a byte that is no digit, gives `n` back. */
  lemma ParseWrittenDigits(s: seq<byte>, p: nat, n: nat, negative: bool, most: nat, low: int, high: int)
    requires Holds(s, p, Digits(n)) && |Digits(n)| < |s| - p
    requires !IsDigit(Peek(s, p + |Digits(n)|))
    requires |Digits(n)| <= most && low <= Signed(negative, n) <= high
    ensures RunEnd(s, p) == p + |Digits(n)|
    ensures ParseDigits(s, p, negative, most, low, high) == Accepted(Signed(negative, n), p + |Digits(n)|)
  {
    DigitsValue(n);
    var q := p + |Digits(n)|;
    forall k | p <= k < q
      ensures IsDigit(s[k])
    {
      assert s[k] == s[p..q][k - p];
    }
    RunEndsAt(s, p, q);
  }

  lemma DigitsStart(n: nat)
    ensures IsDigit(Digits(n)[0])
  {
    DigitsValue(n);
  }

  // ----- Canonical texts

  /** A number without leading zeros, and not without digits. */
  predicate Minimal(s: seq<byte>, p: nat) {
    && IsDigit(Peek(s, p))
    && (Peek(s, p) == ZERO ==> !IsDigit(Peek(s, p + 1)))
  }

  /**
    The text of the value at `p` follows BEP 3: numbers are minimal, there is
    no negative zero, and keys are in strictly ascending order.
   */
  predicate Canonical(s: seq<byte>, p: nat)
    requires p <= |s|
    decreases |s| - p, 0
  {
    var c := Peek(s, p);
    if c == INT then
      if Peek(s, p + 1) == MINUS then Minimal(s, p + 2) && Peek(s, p + 2) != ZERO else Minimal(s, p + 1)
    else if c == LIST then CanonicalItems(s, p + 1)
    else if c == DICT then CanonicalEntries(s, p + 1, None)
    else Minimal(s, p)
  }

  predicate CanonicalItems(s: seq<byte>, p: nat)
    requires p <= |s|
    decreases |s| - p, 1
  {
    Peek(s, p) != END ==>
      && Canonical(s, p)
      && match Parse(s, p)
         case Rejected => true
         case Accepted(_, q) => CanonicalItems(s, q)
  }

  predicate CanonicalEntries(s: seq<byte>, p: nat, previous: Option<seq<byte>>)
    requires p <= |s|
    decreases |s| - p, 1
  {
    Peek(s, p) != END ==>
      && Minimal(s, p)
      && match ParseStr(s, p)
         case Rejected => true
         case Accepted(key, q) =>
           && (previous.Some? ==> Less(previous.value, key))
           && Canonical(s, q)
           && match Parse(s, q)
              case Rejected => true
              case Accepted(_, n) => CanonicalEntries(s, n, Some(key))
  }

  lemma {:induction false} DigitsFirst(n: nat)
    ensures Digits(n)[0] == ZERO <==> n == 0
  {
    if n >= 10 {
      DigitsFirst(n / 10);
    }
  }

  lemma WrittenDigitsAreMinimal(s: seq<byte>, p: nat, n: nat)
    requires Holds(s, p, Digits(n)) && !IsDigit(Peek(s, p + |Digits(n)|))
    ensures Minimal(s, p) && (Peek(s, p) == ZERO <==> n == 0)
  {
    DigitsStart(n);
    DigitsFirst(n);
    HoldsFirst(s, p, Digits(n));
  }

  /** The digits of a 64-bit integer and the byte that ends it. */
  lemma ParseWrittenMagnitude(s: seq<byte>, p: nat, m: nat, negative: bool)
    requires INT64_MIN <= Signed(negative, m) <= INT64_MAX
    requires Holds(s, p, Digits(m)) && Peek(s, p + |Digits(m)|) == END
    ensures p < |s| && Minimal(s, p) && (Peek(s, p) == ZERO <==> m == 0)
    ensures ParseDigits(s, p, negative, 19, INT64_MIN, INT64_MAX) == Accepted(Signed(negative, m), p + |Digits(m)|)
  {
    hide Holds, Digits, ParseDigits, Minimal, RunEnd;
    WordDigits(m);
    WrittenDigitsAreMinimal(s, p, m);
    ParseWrittenDigits(s, p, m, negative, 19, INT64_MIN, INT64_MAX);
  }

  lemma ParseWrittenNumeral(s: seq<byte>, p: nat, n: int)
    requires INT64_MIN <= n <= INT64_MAX
    requires Holds(s, p + 1, Decimal(n)) && Peek(s, p + 1 + |Decimal(n)|) == END
    ensures p < |s| && ParseInt(s, p) == Accepted(Integer(n), p + |Decimal(n)| + 2)
    ensures if n < 0 then Peek(s, p + 1) == MINUS && Minimal(s, p + 2) && Peek(s, p + 2) != ZERO
            else Peek(s, p + 1) != MINUS && Minimal(s, p + 1)
  {
    hide Digits, ParseDigits;
    if n < 0 {
      HoldsConcat(s, p + 1, [MINUS], Digits(-n));
      HoldsByte(s, p + 1, MINUS);
      hide Holds;
      ParseWrittenMagnitude(s, p + 2, -n, true);
    } else {
      hide Holds;
      ParseWrittenMagnitude(s, p + 1, n, false);
    }
  }

  lemma ParseWrittenInt(s: seq<byte>, p: nat, n: int)
    requires INT64_MIN <= n <= INT64_MAX
    requires Holds(s, p, Encode(Integer(n)))
    ensures Parse(s, p) == Accepted(Integer(n), p + |Encode(Integer(n))|)
    ensures Canonical(s, p)
  {
    HoldsThree(s, p, [INT], Decimal(n), [END]);
    HoldsByte(s, p, INT);
    HoldsByte(s, p + 1 + |Decimal(n)|, END);
    hide Holds, Decimal, ParseInt, Minimal;
    ParseWrittenNumeral(s, p, n);
  }

  lemma ParseWrittenStr(s: seq<byte>, p: nat, str: seq<byte>)
    requires |str| <= INT64_MAX
    requires Holds(s, p, EncodeStr(str))
    ensures ParseStr(s, p) == Accepted(str, p + |EncodeStr(str)|)
    ensures IsDigit(Peek(s, p)) && Minimal(s, p)
  {
    var d := Digits(|str|);
    HoldsThree(s, p, d, [COLON], str);
    HoldsByte(s, p + |d|, COLON);
    WordDigits(|str|);
    DigitsStart(|str|);
    WrittenDigitsAreMinimal(s, p, |str|);
    assert s[p + |d| + 1..p + |d| + 1 + |str|] == str;
    hide Holds, Digits, Power10;
    ParseWrittenDigits(s, p, |str|, false, 20, 0, UINT64_MAX);
  }

  // ----- Round trip

  /** An encoding does not start with the byte that ends a list or dictionary. */
  lemma EncodingStart(d: Data)
    ensures Encode(d) != [] && Encode(d)[0] != END
  {
    if d.Str? {
      DigitsStart(|d.bytes|);
    }
  }

  /** Decoding an encoding gives the value back and stops at its end, whatever follows; and encodings are canonical. */
  lemma {:induction false} RoundTrip(s: seq<byte>, p: nat, d: Data)
    requires Representable(d) && Holds(s, p, Encode(d))
    ensures Parse(s, p) == Accepted(d, p + |Encode(d)|)
    ensures Canonical(s, p)
    decreases d, 1
  {
    hide Holds, ParseStr, ParseInt, Minimal, ParseItems, ParseEntries, CanonicalItems, CanonicalEntries;
    hide EncodeItems, EncodeEntries, EncodeStr, Decimal, Peek;
    match d
    case Integer(n) => ParseWrittenInt(s, p, n);
    case Str(str) => ParseWrittenStr(s, p, str);
    case List(items) =>
      HoldsThree(s, p, [LIST], EncodeItems(items), [END]);
      HoldsByte(s, p, LIST);
      HoldsByte(s, p + 1 + |EncodeItems(items)|, END);
      RoundTripItems(s, p + 1, [], items);
      assert [] + items == items;
    case Dict(entries) =>
      HoldsThree(s, p, [DICT], EncodeEntries(entries), [END]);
      HoldsByte(s, p, DICT);
      HoldsByte(s, p + 1 + |EncodeEntries(entries)|, END);
      RoundTripEntries(s, p + 1, [], entries);
      assert [] + entries == entries;
  }

  lemma {:induction false} RoundTripItems(s: seq<byte>, p: nat, before: seq<Data>, items: seq<Data>)
    requires forall i :: 0 <= i < |items| ==> Representable(items[i])
    requires Holds(s, p, EncodeItems(items))
    requires Peek(s, p + |EncodeItems(items)|) == END
    ensures ParseItems(s, p, before) == Accepted(List(before + items), p + |EncodeItems(items)| + 1)
    ensures CanonicalItems(s, p)
    decreases items, 0
  {
    hide Holds, Parse, Representable, Encode, Canonical;
    if items == [] {
      assert before + items == before;
    } else {
      var e, rest := Encode(items[0]), EncodeItems(items[1..]);
      HoldsConcat(s, p, e, rest);
      EncodingStart(items[0]);
      HoldsFirst(s, p, e);
      RoundTrip(s, p, items[0]);
      RoundTripItems(s, p + |e|, before + [items[0]], items[1..]);
      assert before + [items[0]] + items[1..] == before + items;
    }
  }

  /** A key greater than all others is inserted at the end, and is new. */
  lemma {:induction false} InsertLast(entries: seq<Entry>, key: seq<byte>, value: Data)
    requires forall i :: 0 <= i < |entries| ==> Less(entries[i].key, key)
    ensures Insert(entries, key, value) == entries + [Entry(key, value)]
    ensures !HasKey(entries, key)
  {
    LessIsTotal(key, key);
    if entries == [] {
    } else {
      LessIsTotal(entries[0].key, key);
      InsertLast(entries[1..], key, value);
      assert entries == [entries[0]] + entries[1..];
    }
  }

  function LastKey(entries: seq<Entry>): Option<seq<byte>> {
    if entries == [] then None else Some(entries[|entries| - 1].key)
  }

  lemma LastKeyIsGreatest(before: seq<Entry>, entries: seq<Entry>)
    requires Sorted(before + entries) && entries != []
    ensures forall i :: 0 <= i < |before| ==> Less(before[i].key, entries[0].key)
  {
    forall i | 0 <= i < |before|
      ensures Less(before[i].key, entries[0].key)
    {
      assert (before + entries)[i] == before[i] && (before + entries)[|before|] == entries[0];
    }
  }

  lemma {:induction false} RoundTripEntries(s: seq<byte>, p: nat, before: seq<Entry>, entries: seq<Entry>)
    requires forall i :: 0 <= i < |entries| ==> |entries[i].key| <= INT64_MAX && Representable(entries[i].value)
    requires Sorted(before + entries)
    requires Holds(s, p, EncodeEntries(entries))
    requires Peek(s, p + |EncodeEntries(entries)|) == END
    ensures ParseEntries(s, p, before) == Accepted(Dict(before + entries), p + |EncodeEntries(entries)| + 1)
    ensures CanonicalEntries(s, p, LastKey(before))
    decreases entries, 0
  {
    hide Holds, Parse, Representable, Encode, EncodeStr, ParseStr, Insert, Sorted, HasKey, Less, Canonical, Minimal;
    if entries == [] {
      assert before + entries == before;
    } else {
      var k, v, rest := EncodeStr(entries[0].key), Encode(entries[0].value), EncodeEntries(entries[1..]);
      HoldsThree(s, p, k, v, rest);
      ParseWrittenStr(s, p, entries[0].key);
      RoundTrip(s, p + |k|, entries[0].value);
      LastKeyIsGreatest(before, entries);
      InsertLast(before, entries[0].key, entries[0].value);
      assert before + [entries[0]] + entries[1..] == before + entries;
      RoundTripEntries(s, p + |k| + |v|, before + [entries[0]], entries[1..]);
    }
  }

  // ----- What is accepted is representable

  lemma {:induction false} InsertKeepsOrder(entries: seq<Entry>, key: seq<byte>, value: Data)
    requires Sorted(entries) && !HasKey(entries, key)
    ensures Sorted(Insert(entries, key, value))
    ensures forall e :: e in Insert(entries, key, value) <==> e == Entry(key, value) || e in entries
  {
    if entries != [] && !Less(key, entries[0].key) {
      LessIsTotal(key, entries[0].key);
      assert entries == [entries[0]] + entries[1..];
      assert !HasKey(entries[1..], key) by {
        assert forall i :: 0 <= i < |entries[1..]| ==> entries[1..][i] == entries[i + 1];
      }
      InsertKeepsOrder(entries[1..], key, value);
      var rest := Insert(entries[1..], key, value);
      forall j | 0 <= j < |rest|
        ensures Less(entries[0].key, rest[j].key)
      {
        assert rest[j] in rest;
      }
    } else if entries != [] {
      forall j | 0 <= j < |entries|
        ensures Less(key, entries[j].key)
      {
        if j > 0 {
          LessIsTransitive(key, entries[0].key, entries[j].key);
        }
      }
    }
  }

  lemma {:induction false} ParsedIsRepresentable(s: seq<byte>, p: nat)
    requires p <= |s| <= INT64_MAX && Parse(s, p).Accepted?
    ensures Representable(Parse(s, p).value)
    decreases |s| - p, 0
  {
    hide ParseInt, ParseStr;
    var c := Peek(s, p);
    if c == INT {
      IntegersFit(s, p);
    } else if c == LIST {
      ItemsAreRepresentable(s, p + 1, []);
    } else if c == DICT {
      EntriesAreRepresentable(s, p + 1, []);
    } else {
      StringsFit(s, p);
    }
  }

  lemma IntegersFit(s: seq<byte>, p: nat)
    requires p < |s| && ParseInt(s, p).Accepted?
    ensures Representable(ParseInt(s, p).value)
  {
  }

  lemma StringsFit(s: seq<byte>, p: nat)
    requires p <= |s| <= INT64_MAX && ParseStr(s, p).Accepted?
    ensures |ParseStr(s, p).value| <= INT64_MAX
  {
    assert |ParseStr(s, p).value| <= |s|;
  }

  lemma {:induction false} ItemsAreRepresentable(s: seq<byte>, p: nat, items: seq<Data>)
    requires p <= |s| <= INT64_MAX && ParseItems(s, p, items).Accepted?
    requires forall i :: 0 <= i < |items| ==> Representable(items[i])
    ensures Representable(ParseItems(s, p, items).value)
    decreases |s| - p, 1
  {
    hide Parse;
    if Peek(s, p) == END {
    } else {
      ParsedIsRepresentable(s, p);
      ItemsAreRepresentable(s, Parse(s, p).next, items + [Parse(s, p).value]);
    }
  }

  predicate EntryFits(e: Entry) {
    |e.key| <= INT64_MAX && Representable(e.value)
  }

  lemma {:induction false} EntriesAreRepresentable(s: seq<byte>, p: nat, entries: seq<Entry>)
    requires p <= |s| <= INT64_MAX && ParseEntries(s, p, entries).Accepted?
    requires Sorted(entries) && forall e :: e in entries ==> EntryFits(e)
    ensures Representable(ParseEntries(s, p, entries).value)
    decreases |s| - p, 1
  {
    hide Parse, ParseStr, Insert, Sorted, HasKey;
    if Peek(s, p) != END {
      var key := ParseStr(s, p);
      StringsFit(s, p);
      var d := Parse(s, key.next);
      ParsedIsRepresentable(s, key.next);
      InsertKeepsOrder(entries, key.value, d.value);
      EntriesAreRepresentable(s, d.next, Insert(entries, key.value, d.value));
    } else {
      forall i | 0 <= i < |entries|
        ensures |entries[i].key| <= INT64_MAX && Representable(entries[i].value)
      {
        assert entries[i] in entries;
        assert EntryFits(entries[i]);
      }
    }
  }

  // ----- Canonical texts are reproduced

  /** Digits without leading zeros are the digits that are written for their value. */
  lemma {:induction false} MinimalDigitsAreWritten(digits: seq<byte>)
    requires digits != [] && forall k :: 0 <= k < |digits| ==> IsDigit(digits[k])
    requires digits[0] == ZERO ==> |digits| == 1
    ensures Digits(Value(digits)) == digits
    ensures Value(digits) == 0 ==> digits[0] == ZERO
  {
    var n := |digits| - 1;
    if n == 0 {
      assert digits[..0] == [];
    } else {
      MinimalDigitsAreWritten(digits[..n]);
      assert Value(digits) / 10 == Value(digits[..n]);
      assert digits == digits[..n] + [digits[n]];
    }
  }

  lemma MinimalRun(s: seq<byte>, p: nat)
    requires Minimal(s, p)
    ensures p < RunEnd(s, p) && s[p..RunEnd(s, p)] == Digits(Value(s[p..RunEnd(s, p)]))
    ensures Value(s[p..RunEnd(s, p)]) == 0 ==> s[p] == ZERO
  {
    var q := RunEnd(s, p);
    assert s[p] == ZERO ==> q == p + 1;
    MinimalDigitsAreWritten(s[p..q]);
  }

  lemma MinimalRunDecimal(s: seq<byte>, p: nat, negative: bool)
    requires Minimal(s, p) && (negative ==> Peek(s, p) != ZERO)
    ensures var n: int := Value(s[p..RunEnd(s, p)]);
            (if negative then [MINUS] else []) + s[p..RunEnd(s, p)] == Decimal(if negative then -n else n)
  {
    MinimalRun(s, p);
  }

  function NumeralStart(s: seq<byte>, p: nat): nat {
    if Peek(s, p + 1) == MINUS then p + 2 else p + 1
  }

  /** What an accepted integer text consists of. */
  lemma IntegerText(s: seq<byte>, p: nat)
    requires p < |s| && ParseInt(s, p).Accepted?
    ensures var q := RunEnd(s, NumeralStart(s, p));
            var n: int := Value(s[NumeralStart(s, p)..q]);
            && Peek(s, q) == END
            && ParseInt(s, p) == Accepted(Integer(if Peek(s, p + 1) == MINUS then -n else n), q + 1)
  {
    hide Value, RunEnd;
  }

  lemma SplitNumeral(s: seq<byte>, p: nat, start: nat, q: nat)
    requires p < start <= q < |s|
    ensures s[p..q + 1] == [s[p]] + (s[p + 1..start] + s[start..q]) + [s[q]]
  {
  }

  lemma CanonicalIntReproduces(s: seq<byte>, p: nat)
    requires Peek(s, p) == INT && ParseInt(s, p).Accepted? && Canonical(s, p)
    ensures s[p..ParseInt(s, p).next] == Encode(ParseInt(s, p).value)
  {
    IntegerText(s, p);
    var start := NumeralStart(s, p);
    MinimalRunDecimal(s, start, Peek(s, p + 1) == MINUS);
    hide ParseInt, Minimal, Value, Decimal, RunEnd;
    var q := ParseInt(s, p).next - 1;
    assert s[p + 1..start] == if Peek(s, p + 1) == MINUS then [MINUS] else [];
    SplitNumeral(s, p, start, q);
  }

  lemma CanonicalStrReproduces(s: seq<byte>, p: nat)
    requires p <= |s| && ParseStr(s, p).Accepted? && Minimal(s, p)
    ensures s[p..ParseStr(s, p).next] == EncodeStr(ParseStr(s, p).value)
  {
    MinimalRun(s, p);
    var q := RunEnd(s, p);
    assert s[p..ParseStr(s, p).next] == s[p..q] + [s[q]] + ParseStr(s, p).value;
  }

  /** The text of a canonical value is the encoding of that value. */
  lemma {:induction false} CanonicalReproduces(s: seq<byte>, p: nat)
    requires p <= |s| && Parse(s, p).Accepted? && Canonical(s, p)
    ensures s[p..Parse(s, p).next] == Encode(Parse(s, p).value)
    decreases |s| - p, 0
  {
    hide ParseInt, ParseStr, Minimal, ParseItems, ParseEntries, CanonicalItems, CanonicalEntries, EncodeItems, EncodeEntries;
    var c := Peek(s, p);
    if c == INT {
      CanonicalIntReproduces(s, p);
    } else if c == LIST {
      var rest := CanonicalItemsReproduce(s, p + 1, []);
      assert [] + rest == rest;
      assert s[p..Parse(s, p).next] == [s[p]] + s[p + 1..Parse(s, p).next];
      assert Encode(List(rest)) == [LIST] + (EncodeItems(rest) + [END]);
    } else if c == DICT {
      var rest := CanonicalEntriesReproduce(s, p + 1, []);
      assert [] + rest == rest;
      assert s[p..Parse(s, p).next] == [s[p]] + s[p + 1..Parse(s, p).next];
      assert Encode(Dict(rest)) == [DICT] + (EncodeEntries(rest) + [END]);
    } else {
      CanonicalStrReproduces(s, p);
    }
  }

  /** `rest` are the items that follow `before`. */
  lemma {:induction false} CanonicalItemsReproduce(s: seq<byte>, p: nat, before: seq<Data>) returns (rest: seq<Data>)
    requires p <= |s| && ParseItems(s, p, before).Accepted? && CanonicalItems(s, p)
    ensures ParseItems(s, p, before).value == List(before + rest)
    ensures s[p..ParseItems(s, p, before).next] == EncodeItems(rest) + [END]
    decreases |s| - p, 1
  {
    hide Parse, Canonical, Encode;
    if Peek(s, p) == END {
      rest := [];
      assert before + rest == before && s[p..p + 1] == [END];
    } else {
      var d, q, next := Parse(s, p).value, Parse(s, p).next, ParseItems(s, p, before).next;
      CanonicalReproduces(s, p);
      var tail := CanonicalItemsReproduce(s, q, before + [d]);
      rest := [d] + tail;
      assert before + [d] + tail == before + rest && rest[1..] == tail;
      assert s[p..next] == s[p..q] + s[q..next];
    }
  }

  /** All keys of `before` are smaller than the keys to come, so these are inserted at the end. */
  lemma {:induction false} CanonicalEntriesReproduce(s: seq<byte>, p: nat, before: seq<Entry>)
    returns (rest: seq<Entry>)
    requires p <= |s| && ParseEntries(s, p, before).Accepted?
    requires Sorted(before) && CanonicalEntries(s, p, LastKey(before))
    ensures ParseEntries(s, p, before).value == Dict(before + rest)
    ensures s[p..ParseEntries(s, p, before).next] == EncodeEntries(rest) + [END]
    decreases |s| - p, 1
  {
    hide Parse, Canonical, Encode, ParseStr, EncodeStr, Insert, HasKey, Minimal;
    if Peek(s, p) == END {
      rest := [];
      assert before + rest == before && s[p..p + 1] == [END];
    } else {
      var key, d := ParseStr(s, p), Parse(s, ParseStr(s, p).next);
      var next := ParseEntries(s, p, before).next;
      CanonicalStrReproduces(s, p);
      CanonicalReproduces(s, key.next);
      AppendKeepsOrder(before, key.value, d.value);
      InsertLast(before, key.value, d.value);
      var e := Entry(key.value, d.value);
      var tail := CanonicalEntriesReproduce(s, d.next, before + [e]);
      rest := [e] + tail;
      assert before + [e] + tail == before + rest && rest[1..] == tail;
      assert s[p..next] == s[p..key.next] + s[key.next..d.next] + s[d.next..next];
    }
  }

  lemma AppendKeepsOrder(before: seq<Entry>, key: seq<byte>, value: Data)
    requires Sorted(before) && (before != [] ==> Less(before[|before| - 1].key, key))
    ensures Sorted(before + [Entry(key, value)])
    ensures forall i :: 0 <= i < |before| ==> Less(before[i].key, key)
  {
    forall i | 0 <= i < |before|
      ensures Less(before[i].key, key)
    {
      if i < |before| - 1 {
        LessIsTransitive(before[i].key, before[|before| - 1].key, key);
      }
    }
  }

  // ----- Main results

  /**
    Encoding what was decoded reproduces the text byte for byte exactly when
    the text is canonical: numbers without leading zeros, no negative zero,
    keys in ascending order.
   */
  lemma ReencodingReproducesCanonicalText(s: seq<byte>, p: nat)
    requires p <= |s| <= INT64_MAX && Parse(s, p).Accepted?
    ensures Encode(Parse(s, p).value) == s[p..Parse(s, p).next] <==> Canonical(s, p)
  {
    hide Parse, Canonical, Encode, Representable;
    var d := Parse(s, p).value;
    if Canonical(s, p) {
      CanonicalReproduces(s, p);
    }
    if Encode(d) == s[p..Parse(s, p).next] {
      ParsedIsRepresentable(s, p);
      RoundTrip(s, p, d);
    }
  }

  /** Encoding and decoding an accepted text once more changes nothing. */
  lemma ReencodingIsIdempotent(s: seq<byte>, p: nat)
    requires p <= |s| <= INT64_MAX && Parse(s, p).Accepted?
    ensures var e := Encode(Parse(s, p).value); Parse(e, 0) == Accepted(Parse(s, p).value, |e|)
  {
    hide Parse, Encode, Representable;
    var e := Encode(Parse(s, p).value);
    assert e[0..0 + |e|] == e;
    ParsedIsRepresentable(s, p);
    RoundTrip(e, 0, Parse(s, p).value);
  }

  /** No encoding is a proper prefix of another. */
  lemma EncodingsArePrefixFree(a: Data, b: Data)
    requires Representable(a) && Representable(b)
    requires Encode(a) <= Encode(b)
    ensures a == b
  {
    hide Parse, Encode, Representable;
    var s := Encode(b);
    assert s[0..0 + |s|] == s && s[0..0 + |Encode(a)|] == Encode(a);
    RoundTrip(s, 0, a);
    RoundTrip(s, 0, b);
  }
}
