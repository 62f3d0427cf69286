/** Exactly which texts are accepted as bencode, and as what. */
module BencodeSyntax {
  import opened Bytes
  import opened Bencode
  import opened BencodeLaws

  /** How a value is written: numbers with their digits, dictionaries with their pairs in the order they stand in. */
  datatype Tree =
    | Num(negative: bool, digits: seq<byte>, magnitude: nat)
    | Text(digits: seq<byte>, bytes: seq<byte>)
    | Items(items: seq<Tree>)
    | Pairs(pairs: seq<Pair>)

  datatype Pair = Pair(digits: seq<byte>, key: seq<byte>, value: Tree)

  /** A length in one to twenty digits. */
  predicate IsLength(digits: seq<byte>, n: nat) {
    SpellsDecimal(digits, n) && 1 <= |digits| <= 20 && n <= 0xffff_ffff_ffff_ffff
  }

  /**
    Numbers have at most nineteen digits, leading zeros included, or none at
    all, and their value fits 64 bits. No key of a dictionary occurs twice.
   */
  predicate IsTree(t: Tree) {
    match t
    case Num(negative, digits, m) =>
      SpellsDecimal(digits, m) && |digits| <= 19 && (if negative then m <= 0x8000_0000_0000_0000 else m <= 0x7fff_ffff_ffff_ffff)
    case Text(digits, bytes) => IsLength(digits, |bytes|)
    case Items(items) => forall i :: 0 <= i < |items| ==> IsTree(items[i])
    case Pairs(pairs) =>
      && (forall i :: 0 <= i < |pairs| ==> IsLength(pairs[i].digits, |pairs[i].key|) && IsTree(pairs[i].value))
      && (forall i, j :: 0 <= i < j < |pairs| ==> pairs[i].key != pairs[j].key)
  }

  function Sign(negative: bool): seq<byte> {
    if negative then [45] else [] // -
  }

  function LengthText(digits: seq<byte>, bytes: seq<byte>): seq<byte> {
    digits + [58] + bytes // :
  }

  function TreeText(t: Tree): (s: seq<byte>)
    decreases t, 1
  {
    match t
    case Num(negative, digits, _) => [105] + (Sign(negative) + digits) + [101] // i, e
    case Text(digits, bytes) => LengthText(digits, bytes)
    case Items(items) => [108] + ItemsText(items) + [101] // l, e
    case Pairs(pairs) => [100] + PairsText(pairs) + [101] // d, e
  }

  function ItemsText(items: seq<Tree>): seq<byte>
    decreases items, 0
  {
    if items == [] then [] else TreeText(items[0]) + ItemsText(items[1..])
  }

  function PairsText(pairs: seq<Pair>): seq<byte>
    decreases pairs, 0
  {
    if pairs == [] then [] else LengthText(pairs[0].digits, pairs[0].key) + TreeText(pairs[0].value) + PairsText(pairs[1..])
  }

  /** The value that is written. */
  function Meaning(t: Tree): Data
    decreases t, 1
  {
    match t
    case Num(negative, _, m) => var n: int := m; Integer(if negative then -n else n)
    case Text(_, bytes) => Str(bytes)
    case Items(items) => List(ItemsMeaning(items))
    case Pairs(pairs) => Dict(PairsMeaning([], pairs))
  }

  function ItemsMeaning(items: seq<Tree>): seq<Data>
    decreases items, 0
  {
    if items == [] then [] else [Meaning(items[0])] + ItemsMeaning(items[1..])
  }

  /** The entries of an ordered map into which the pairs are inserted one by one. */
  function PairsMeaning(entries: seq<Entry>, pairs: seq<Pair>): seq<Entry>
    decreases pairs, 0
  {
    if pairs == [] then entries
    else PairsMeaning(Insert(entries, pairs[0].key, Meaning(pairs[0].value)), pairs[1..])
  }

  // ----- Numbers

  lemma {:induction false} SpelledValue(digits: seq<byte>, n: nat)
    ensures SpellsDecimal(digits, n)
            <==> (forall k :: 0 <= k < |digits| ==> IsDigit(digits[k])) && Value(digits) == n
  {
    if digits == [] {
    } else {
      var k := |digits| - 1;
      SpelledValue(digits[..k], n / 10);
      if (forall k :: 0 <= k < |digits| ==> IsDigit(digits[k])) && Value(digits) == n {
        SpelledValue(digits[..k], Value(digits[..k]));
      }
    }
  }

  lemma SpelledIsRead(s: seq<byte>, p: nat, digits: seq<byte>, n: nat, negative: bool, most: nat, low: int, high: int)
    requires Holds(s, p, digits) && p + |digits| < |s| && !IsDigit(Peek(s, p + |digits|))
    requires SpellsDecimal(digits, n) && |digits| <= most && low <= Signed(negative, n) <= high
    ensures ParseDigits(s, p, negative, most, low, high) == Accepted(Signed(negative, n), p + |digits|)
  {
    SpelledValue(digits, n);
    var q := p + |digits|;
    forall k | p <= k < q
      ensures IsDigit(s[k])
    {
      assert s[k] == s[p..q][k - p];
    }
    RunEndsAt(s, p, q);
    hide SpellsDecimal, Value, IsDigit, RunEnd;
  }

  lemma ReadIsSpelled(s: seq<byte>, p: nat, negative: bool, most: nat, low: int, high: int) returns (digits: seq<byte>, n: nat)
    requires p <= |s| && ParseDigits(s, p, negative, most, low, high).Accepted?
    ensures SpellsDecimal(digits, n) && |digits| <= most && low <= Signed(negative, n) <= high
    ensures Holds(s, p, digits)
    ensures ParseDigits(s, p, negative, most, low, high) == Accepted(Signed(negative, n), p + |digits|)
  {
    var q := RunEnd(s, p);
    digits := s[p..q];
    n := Value(digits);
    SpelledValue(digits, n);
    hide SpellsDecimal, Value, IsDigit, RunEnd;
  }

  lemma PeekPast(s: seq<byte>, p: nat, c: byte)
    requires Peek(s, p) == c
    ensures p < |s|
  {
  }

  /** Where the digits of a number start. */
  function DigitsAt(p: nat, negative: bool): nat {
    if negative then p + 2 else p + 1
  }

  lemma NumText(s: seq<byte>, p: nat, t: Tree)
    requires t.Num?
    ensures |TreeText(t)| == DigitsAt(0, t.negative) + |t.digits| + 1
    ensures Holds(s, p, TreeText(t))
            <==> && Peek(s, p) == 105 && (t.negative ==> Peek(s, p + 1) == 45)
                 && Holds(s, DigitsAt(p, t.negative), t.digits)
                 && Peek(s, DigitsAt(p, t.negative) + |t.digits|) == 101
  {
    hide *;
    NumTextIs(t);
    HoldsThree(s, p, [105], Sign(t.negative) + t.digits, [101]);
    HoldsByte(s, p, 105);
    HoldsByte(s, p + 1 + |Sign(t.negative) + t.digits|, 101);
    HoldsConcat(s, p + 1, Sign(t.negative), t.digits);
    SignHolds(s, p + 1, t.negative, t.digits);
    DigitsStartAt(p, t.negative);
    DigitsStartAt(0, t.negative);
  }

  lemma NumTextIs(t: Tree)
    requires t.Num?
    ensures TreeText(t) == [105] + (Sign(t.negative) + t.digits) + [101]
  {
  }

  lemma DigitsStartAt(p: nat, negative: bool)
    ensures DigitsAt(p, negative) == p + 1 + |Sign(negative)|
  {
  }

  lemma SignHolds(s: seq<byte>, p: nat, negative: bool, digits: seq<byte>)
    ensures Holds(s, p, Sign(negative)) && Holds(s, p + |Sign(negative)|, digits)
            <==> (negative ==> Peek(s, p) == 45) && Holds(s, p + |Sign(negative)|, digits)
  {
    HoldsByte(s, p, 45);
  }

  lemma NoMinus(s: seq<byte>, p: nat, digits: seq<byte>, n: nat)
    requires SpellsDecimal(digits, n) && Holds(s, p, digits) && Peek(s, p + |digits|) == 101
    ensures Peek(s, p) != 45 && !IsDigit(Peek(s, p + |digits|)) && p + |digits| < |s|
  {
    SpelledValue(digits, n);
    if digits != [] {
      HoldsFirst(s, p, digits);
    }
  }

  lemma NumIsRead(s: seq<byte>, p: nat, t: Tree)
    requires t.Num? && IsTree(t) && Holds(s, p, TreeText(t))
    ensures p < |s| && Parse(s, p) == Accepted(Meaning(t), p + |TreeText(t)|)
  {
    hide Holds, SpellsDecimal, TreeText, ParseDigits, IsDigit;
    NumText(s, p, t);
    PeekPast(s, p, 105);
    var at := DigitsAt(p, t.negative);
    NoMinus(s, at, t.digits, t.magnitude);
    SpelledIsRead(s, at, t.digits, t.magnitude, t.negative, 19, INT64_MIN, INT64_MAX);
  }

  lemma ReadIsNum(s: seq<byte>, p: nat) returns (t: Tree)
    requires p < |s| && Peek(s, p) == INT && ParseInt(s, p).Accepted?
    ensures t.Num? && IsTree(t) && Holds(s, p, TreeText(t)) && ParseInt(s, p) == Accepted(Meaning(t), p + |TreeText(t)|)
  {
    hide Holds, SpellsDecimal, TreeText, ParseDigits;
    var negative := Peek(s, p + 1) == MINUS;
    var digits, m := ReadIsSpelled(s, DigitsAt(p, negative), negative, 19, INT64_MIN, INT64_MAX);
    t := Num(negative, digits, m);
    NumText(s, p, t);
  }

  // ----- Strings

  lemma LengthIsRead(s: seq<byte>, p: nat, digits: seq<byte>, bytes: seq<byte>)
    requires IsLength(digits, |bytes|) && Holds(s, p, LengthText(digits, bytes))
    ensures p < |s| && IsDigit(Peek(s, p)) && ParseStr(s, p) == Accepted(bytes, p + |LengthText(digits, bytes)|)
  {
    HoldsThree(s, p, digits, [58], bytes);
    HoldsByte(s, p + |digits|, 58);
    SpelledIsRead(s, p, digits, |bytes|, false, 20, 0, UINT64_MAX);
    SpelledValue(digits, |bytes|);
    HoldsFirst(s, p, digits);
    hide ParseDigits, SpellsDecimal, Value;
  }

  lemma ReadIsLength(s: seq<byte>, p: nat) returns (digits: seq<byte>, bytes: seq<byte>)
    requires p <= |s| && IsDigit(Peek(s, p)) && ParseStr(s, p).Accepted?
    ensures IsLength(digits, |bytes|) && Holds(s, p, LengthText(digits, bytes))
    ensures ParseStr(s, p) == Accepted(bytes, p + |LengthText(digits, bytes)|)
  {
    var n;
    digits, n := ReadIsSpelled(s, p, false, 20, 0, UINT64_MAX);
    NotEmpty(s, p, digits);
    bytes := ParseStr(s, p).value;
    HoldsByte(s, p + |digits|, 58);
    HoldsThree(s, p, digits, [58], bytes);
    hide ParseDigits, SpellsDecimal;
  }

  lemma NotEmpty(s: seq<byte>, p: nat, digits: seq<byte>)
    requires p <= |s| && IsDigit(Peek(s, p))
    requires ParseDigits(s, p, false, 20, 0, UINT64_MAX).Accepted?
    requires ParseDigits(s, p, false, 20, 0, UINT64_MAX).next == p + |digits|
    ensures digits != []
  {
    hide Value;
  }

  // ----- Containers

  lemma {:induction false} KeyIsInserted(entries: seq<Entry>, key: seq<byte>, value: Data, other: seq<byte>)
    ensures HasKey(Insert(entries, key, value), other) <==> other == key || HasKey(entries, other)
  {
    hide Less;
    var r := Insert(entries, key, value);
    if entries == [] || Less(key, entries[0].key) {
      assert r[0].key == key && r[1..] == entries;
      assert forall i :: 0 <= i < |entries| ==> entries[i] == r[i + 1];
      assert forall i :: 0 < i < |r| ==> r[i] == entries[i - 1];
    } else {
      var rest := Insert(entries[1..], key, value);
      KeyIsInserted(entries[1..], key, value, other);
      assert r[0] == entries[0];
      assert forall i :: 0 <= i < |rest| ==> rest[i] == r[i + 1];
      assert forall i :: 0 < i < |r| ==> r[i] == rest[i - 1];
      assert forall i :: 0 < i < |entries| ==> entries[i] == entries[1..][i - 1];
    }
  }

  predicate AllTrees(items: seq<Tree>) {
    forall i :: 0 <= i < |items| ==> IsTree(items[i])
  }

  /** Pairs that can follow after these entries. */
  predicate Follow(entries: seq<Entry>, pairs: seq<Pair>) {
    && (forall i :: 0 <= i < |pairs| ==>
          && IsLength(pairs[i].digits, |pairs[i].key|) && IsTree(pairs[i].value)
          && !HasKey(entries, pairs[i].key))
    && (forall i, j :: 0 <= i < j < |pairs| ==> pairs[i].key != pairs[j].key)
  }

  /** The keys of the other pairs are those of the whole list but the first. */
  lemma RestOfPairs(first: Pair, pairs: seq<Pair>)
    ensures var all := [first] + pairs;
            && |all| == |pairs| + 1 && all[0] == first
            && (forall i :: 0 < i < |all| ==> all[i] == pairs[i - 1])
            && (forall i :: 0 <= i < |pairs| ==> pairs[i] == all[i + 1])
  {
  }

  predicate NewPair(entries: seq<Entry>, f: Pair) {
    IsLength(f.digits, |f.key|) && IsTree(f.value) && !HasKey(entries, f.key)
  }

  lemma FollowsFirst(entries: seq<Entry>, first: Pair, pairs: seq<Pair>)
    requires Follow(entries, [first] + pairs)
    ensures NewPair(entries, first) && Follow(Insert(entries, first.key, Meaning(first.value)), pairs)
  {
    hide HasKey, Insert, IsTree, IsLength, Meaning;
    RestOfPairs(first, pairs);
    var all, more := [first] + pairs, Insert(entries, first.key, Meaning(first.value));
    forall i | 0 <= i < |pairs|
      ensures IsLength(pairs[i].digits, |pairs[i].key|) && IsTree(pairs[i].value) && !HasKey(more, pairs[i].key)
    {
      KeyIsInserted(entries, first.key, Meaning(first.value), pairs[i].key);
      assert pairs[i] == all[i + 1] && all[0].key != all[i + 1].key;
    }
    forall i, j | 0 <= i < j < |pairs|
      ensures pairs[i].key != pairs[j].key
    {
      assert pairs[i] == all[i + 1] && pairs[j] == all[j + 1];
    }
  }

  lemma FirstFollows(entries: seq<Entry>, first: Pair, pairs: seq<Pair>)
    requires NewPair(entries, first) && Follow(Insert(entries, first.key, Meaning(first.value)), pairs)
    ensures Follow(entries, [first] + pairs)
  {
    hide HasKey, Insert, IsTree, IsLength, Meaning;
    RestOfPairs(first, pairs);
    var all := [first] + pairs;
    forall i | 0 <= i < |pairs|
      ensures !HasKey(entries, pairs[i].key) && pairs[i].key != first.key
    {
      KeyIsInserted(entries, first.key, Meaning(first.value), pairs[i].key);
    }
    forall i, j | 0 <= i < j < |all|
      ensures all[i].key != all[j].key
    {
      assert all[j] == pairs[j - 1];
      if i > 0 {
        assert all[i] == pairs[i - 1];
      }
    }
  }

  /** The first pair is new, and the others can follow after it. */
  lemma FollowStep(entries: seq<Entry>, first: Pair, pairs: seq<Pair>)
    ensures Follow(entries, [first] + pairs)
            <==> && IsLength(first.digits, |first.key|) && IsTree(first.value) && !HasKey(entries, first.key)
                 && Follow(Insert(entries, first.key, Meaning(first.value)), pairs)
  {
    hide HasKey, Insert, IsTree, IsLength, Meaning, Follow;
    if Follow(entries, [first] + pairs) {
      FollowsFirst(entries, first, pairs);
    }
    if NewPair(entries, first) && Follow(Insert(entries, first.key, Meaning(first.value)), pairs) {
      FirstFollows(entries, first, pairs);
    }
  }

  lemma PairsStep(entries: seq<Entry>, first: Pair, pairs: seq<Pair>)
    ensures PairsText([first] + pairs) == LengthText(first.digits, first.key) + TreeText(first.value) + PairsText(pairs)
    ensures PairsMeaning(entries, [first] + pairs) == PairsMeaning(Insert(entries, first.key, Meaning(first.value)), pairs)
  {
    hide TreeText, Meaning, Insert, LengthText;
    assert ([first] + pairs)[1..] == pairs;
  }

  lemma ItemsStep(first: Tree, items: seq<Tree>)
    ensures ItemsText([first] + items) == TreeText(first) + ItemsText(items)
    ensures ItemsMeaning([first] + items) == [Meaning(first)] + ItemsMeaning(items)
    ensures AllTrees([first] + items) <==> IsTree(first) && AllTrees(items)
  {
    hide TreeText, Meaning, IsTree;
    var all := [first] + items;
    assert all[1..] == items && all[0] == first;
    assert forall i :: 0 < i < |all| ==> all[i] == items[i - 1];
    assert forall i :: 0 <= i < |items| ==> items[i] == all[i + 1];
  }

  lemma Emptied(entries: seq<Entry>)
    ensures ItemsText([]) == [] && ItemsMeaning([]) == [] && AllTrees([])
    ensures PairsText([]) == [] && PairsMeaning(entries, []) == entries && Follow(entries, [])
  {
  }

  lemma Containers(items: seq<Tree>, pairs: seq<Pair>)
    ensures IsTree(Items(items)) <==> AllTrees(items)
    ensures IsTree(Pairs(pairs)) <==> Follow([], pairs)
    ensures Meaning(Items(items)) == List(ItemsMeaning(items)) && Meaning(Pairs(pairs)) == Dict(PairsMeaning([], pairs))
  {
  }

  lemma ContainerText(s: seq<byte>, p: nat, first: byte, text: seq<byte>)
    ensures Holds(s, p, [first] + text + [END])
            <==> Peek(s, p) == first && Holds(s, p + 1, text) && Peek(s, p + 1 + |text|) == END
  {
    hide Holds;
    HoldsThree(s, p, [first], text, [END]);
    HoldsByte(s, p, first);
    HoldsByte(s, p + 1 + |text|, END);
  }

  lemma ListText(s: seq<byte>, p: nat, items: seq<Tree>)
    ensures |TreeText(Items(items))| == |ItemsText(items)| + 2
    ensures Holds(s, p, TreeText(Items(items)))
            <==> Peek(s, p) == LIST && Holds(s, p + 1, ItemsText(items)) && Peek(s, p + 1 + |ItemsText(items)|) == END
  {
    hide ItemsText, Holds, Peek;
    ContainerText(s, p, LIST, ItemsText(items));
  }

  lemma DictText(s: seq<byte>, p: nat, pairs: seq<Pair>)
    ensures |TreeText(Pairs(pairs))| == |PairsText(pairs)| + 2
    ensures Holds(s, p, TreeText(Pairs(pairs)))
            <==> Peek(s, p) == DICT && Holds(s, p + 1, PairsText(pairs)) && Peek(s, p + 1 + |PairsText(pairs)|) == END
  {
    hide PairsText, Holds, Peek;
    ContainerText(s, p, DICT, PairsText(pairs));
  }

  lemma Strings(digits: seq<byte>, bytes: seq<byte>)
    ensures IsTree(Text(digits, bytes)) <==> IsLength(digits, |bytes|)
    ensures TreeText(Text(digits, bytes)) == LengthText(digits, bytes) && Meaning(Text(digits, bytes)) == Str(bytes)
  {
  }

  // ----- One step of the descent

  lemma ParseStep(s: seq<byte>, p: nat)
    requires p <= |s|
    ensures Peek(s, p) == LIST ==> p < |s| && Parse(s, p) == ParseItems(s, p + 1, [])
    ensures Peek(s, p) == DICT ==> p < |s| && Parse(s, p) == ParseEntries(s, p + 1, [])
    ensures Peek(s, p) == INT ==> p < |s| && Parse(s, p) == ParseInt(s, p)
    ensures IsDigit(Peek(s, p)) && ParseStr(s, p).Accepted? ==>
              p < |s| && Parse(s, p) == Accepted(Str(ParseStr(s, p).value), ParseStr(s, p).next)
    ensures Parse(s, p).Accepted? ==>
              || Peek(s, p) == INT || Peek(s, p) == LIST || Peek(s, p) == DICT
              || (IsDigit(Peek(s, p)) && ParseStr(s, p).Accepted?)
    ensures Peek(s, p) == END ==> Parse(s, p) == Rejected
  {
    hide ParseItems, ParseEntries, ParseInt, ParseStr;
  }

  lemma ParseItemsStep(s: seq<byte>, p: nat, items: seq<Data>)
    requires p <= |s|
    ensures Peek(s, p) == END ==> ParseItems(s, p, items) == Accepted(List(items), p + 1)
    ensures Peek(s, p) != END ==>
              ParseItems(s, p, items)
              == if Parse(s, p).Rejected? then Rejected else ParseItems(s, Parse(s, p).next, items + [Parse(s, p).value])
  {
    hide Parse;
  }

  lemma ParseEntriesStep(s: seq<byte>, p: nat, entries: seq<Entry>)
    requires p <= |s|
    ensures Peek(s, p) == END ==> ParseEntries(s, p, entries) == Accepted(Dict(entries), p + 1)
    ensures Peek(s, p) != END && ParseEntries(s, p, entries).Accepted? ==>
              IsDigit(Peek(s, p)) && ParseStr(s, p).Accepted? && Parse(s, ParseStr(s, p).next).Accepted?
    ensures Peek(s, p) != END && IsDigit(Peek(s, p)) && ParseStr(s, p).Accepted? && Parse(s, ParseStr(s, p).next).Accepted? ==>
              var key, d := ParseStr(s, p).value, Parse(s, ParseStr(s, p).next);
              ParseEntries(s, p, entries)
              == if HasKey(entries, key) then Rejected else ParseEntries(s, d.next, Insert(entries, key, d.value))
  {
    hide Parse, ParseStr, Insert, HasKey;
  }

  lemma EndIsThere(s: seq<byte>, p: nat)
    requires Peek(s, p) == END
    ensures p < |s|
  {
  }

  lemma DigitIsNoMark()
    ensures !IsDigit(END)
  {
  }

  // ----- Every tree is read

  /** Whatever surrounds it, the text of a tree is read as its meaning, up to its end. */
  lemma {:induction false} TreeIsRead(s: seq<byte>, p: nat, t: Tree)
    requires IsTree(t) && Holds(s, p, TreeText(t))
    ensures p < |s| && Parse(s, p) == Accepted(Meaning(t), p + |TreeText(t)|)
    decreases t, 1
  {
    hide *;
    match t
    case Num(_, _, _) => NumIsRead(s, p, t);
    case Text(digits, bytes) =>
      Strings(digits, bytes);
      LengthIsRead(s, p, digits, bytes);
      ParseStep(s, p);
    case Items(items) =>
      Containers(items, []);
      ListText(s, p, items);
      InText(s, p);
      ParseStep(s, p);
      ItemsAreRead(s, p + 1, [], items);
      Nothing(ItemsMeaning(items));
    case Pairs(pairs) =>
      Containers([], pairs);
      DictText(s, p, pairs);
      InText(s, p);
      ParseStep(s, p);
      PairsAreRead(s, p + 1, [], pairs);
  }

  lemma InText(s: seq<byte>, p: nat)
    requires Peek(s, p) == LIST || Peek(s, p) == DICT
    ensures p < |s|
  {
  }

  lemma {:induction false} ItemsAreRead(s: seq<byte>, p: nat, before: seq<Data>, items: seq<Tree>)
    requires AllTrees(items) && Holds(s, p, ItemsText(items)) && Peek(s, p + |ItemsText(items)|) == END
    ensures p <= |s| && ParseItems(s, p, before) == Accepted(List(before + ItemsMeaning(items)), p + |ItemsText(items)| + 1)
    decreases items, 0
  {
    hide *;
    EndIsThere(s, p + |ItemsText(items)|);
    ParseItemsStep(s, p, before);
    if items == [] {
      Emptied([]);
      Nothing(before);
    } else {
      var t, more := items[0], items[1..];
      assert items == [t] + more;
      ItemsStep(t, more);
      HoldsConcat(s, p, TreeText(t), ItemsText(more));
      TreeIsRead(s, p, t);
      ParseStep(s, p);
      ItemsAreRead(s, p + |TreeText(t)|, before + [Meaning(t)], more);
      Associate(before, [Meaning(t)], ItemsMeaning(more));
    }
  }

  lemma {:induction false} PairsAreRead(s: seq<byte>, p: nat, before: seq<Entry>, pairs: seq<Pair>)
    requires Follow(before, pairs) && Holds(s, p, PairsText(pairs)) && Peek(s, p + |PairsText(pairs)|) == END
    ensures p <= |s| && ParseEntries(s, p, before) == Accepted(Dict(PairsMeaning(before, pairs)), p + |PairsText(pairs)| + 1)
    decreases pairs, 0
  {
    hide *;
    EndIsThere(s, p + |PairsText(pairs)|);
    ParseEntriesStep(s, p, before);
    if pairs == [] {
      Emptied(before);
    } else {
      var f, more := pairs[0], pairs[1..];
      assert pairs == [f] + more;
      PairsStep(before, f, more);
      FollowStep(before, f, more);
      HoldsThree(s, p, LengthText(f.digits, f.key), TreeText(f.value), PairsText(more));
      LengthIsRead(s, p, f.digits, f.key);
      DigitIsNoMark();
      TreeIsRead(s, p + |LengthText(f.digits, f.key)|, f.value);
      PairsAreRead(s, p + |LengthText(f.digits, f.key)| + |TreeText(f.value)|, Insert(before, f.key, Meaning(f.value)), more);
    }
  }

  // ----- Everything read is a tree

  lemma HoldsNothing(s: seq<byte>, p: nat)
    requires p <= |s|
    ensures Holds(s, p, [])
  {
  }

  /** The tree `t` stands at `p`, with anything around it, up to `q`. */
  predicate Stands(t: Tree, s: seq<byte>, p: nat, q: nat) {
    IsTree(t) && Holds(s, p, TreeText(t)) && q == p + |TreeText(t)|
  }

  lemma Stand(t: Tree, s: seq<byte>, p: nat)
    requires IsTree(t) && Holds(s, p, TreeText(t))
    ensures Stands(t, s, p, p + |TreeText(t)|)
  {
    hide IsTree, TreeText, Holds;
  }

  lemma ListIsTree(s: seq<byte>, p: nat, items: seq<Tree>)
    requires p < |s| && Peek(s, p) == LIST && AllTrees(items)
    requires Holds(s, p + 1, ItemsText(items)) && Peek(s, p + 1 + |ItemsText(items)|) == END
    requires ParseItems(s, p + 1, []) == Accepted(List([] + ItemsMeaning(items)), p + 1 + |ItemsText(items)| + 1)
    ensures Stands(Items(items), s, p, p + |TreeText(Items(items))|)
    ensures Parse(s, p) == Accepted(Meaning(Items(items)), p + |TreeText(Items(items))|)
  {
    hide *;
    ParseStep(s, p);
    Containers(items, []);
    ListText(s, p, items);
    Nothing(ItemsMeaning(items));
    Stand(Items(items), s, p);
  }

  lemma DictIsTree(s: seq<byte>, p: nat, pairs: seq<Pair>)
    requires p < |s| && Peek(s, p) == DICT && Follow([], pairs)
    requires Holds(s, p + 1, PairsText(pairs)) && Peek(s, p + 1 + |PairsText(pairs)|) == END
    requires ParseEntries(s, p + 1, []) == Accepted(Dict(PairsMeaning([], pairs)), p + 1 + |PairsText(pairs)| + 1)
    ensures Stands(Pairs(pairs), s, p, p + |TreeText(Pairs(pairs))|)
    ensures Parse(s, p) == Accepted(Meaning(Pairs(pairs)), p + |TreeText(Pairs(pairs))|)
  {
    hide *;
    ParseStep(s, p);
    Containers([], pairs);
    DictText(s, p, pairs);
    Stand(Pairs(pairs), s, p);
  }

  lemma TextIsTree(s: seq<byte>, p: nat, digits: seq<byte>, bytes: seq<byte>)
    requires p < |s| && IsDigit(Peek(s, p)) && IsLength(digits, |bytes|) && Holds(s, p, LengthText(digits, bytes))
    requires ParseStr(s, p) == Accepted(bytes, p + |LengthText(digits, bytes)|)
    ensures Stands(Text(digits, bytes), s, p, p + |TreeText(Text(digits, bytes))|)
    ensures Parse(s, p) == Accepted(Meaning(Text(digits, bytes)), p + |TreeText(Text(digits, bytes))|)
  {
    hide *;
    ParseStep(s, p);
    Strings(digits, bytes);
    Stand(Text(digits, bytes), s, p);
  }

  lemma NumStands(s: seq<byte>, p: nat) returns (t: Tree)
    requires p < |s| && Peek(s, p) == INT && ParseInt(s, p).Accepted?
    ensures Stands(t, s, p, p + |TreeText(t)|) && Parse(s, p) == Accepted(Meaning(t), p + |TreeText(t)|)
  {
    hide *;
    ParseStep(s, p);
    t := ReadIsNum(s, p);
    Stand(t, s, p);
  }

  lemma {:induction false} ReadIsTree(s: seq<byte>, p: nat) returns (t: Tree)
    requires p <= |s| && Parse(s, p).Accepted?
    ensures Stands(t, s, p, p + |TreeText(t)|) && Parse(s, p) == Accepted(Meaning(t), p + |TreeText(t)|)
    decreases |s| - p, 0
  {
    hide *;
    ParseStep(s, p);
    if Peek(s, p) == INT {
      t := NumStands(s, p);
    } else if Peek(s, p) == LIST {
      var items := ReadAreItems(s, p + 1, []);
      ListIsTree(s, p, items);
      t := Items(items);
    } else if Peek(s, p) == DICT {
      var pairs := ReadArePairs(s, p + 1, []);
      DictIsTree(s, p, pairs);
      t := Pairs(pairs);
    } else {
      var digits, bytes := ReadIsLength(s, p);
      TextIsTree(s, p, digits, bytes);
      t := Text(digits, bytes);
    }
  }

  lemma TreeOf(t: Tree, s: seq<byte>, p: nat, q: nat)
    requires Stands(t, s, p, q)
    ensures IsTree(t) && Holds(s, p, TreeText(t)) && q == p + |TreeText(t)|
  {
    hide IsTree, TreeText, Holds;
  }

  lemma {:induction false} ReadAreItems(s: seq<byte>, p: nat, before: seq<Data>) returns (items: seq<Tree>)
    requires p <= |s| && ParseItems(s, p, before).Accepted?
    ensures AllTrees(items) && Holds(s, p, ItemsText(items)) && Peek(s, p + |ItemsText(items)|) == END
    ensures ParseItems(s, p, before) == Accepted(List(before + ItemsMeaning(items)), p + |ItemsText(items)| + 1)
    decreases |s| - p, 1
  {
    hide *;
    ParseItemsStep(s, p, before);
    if Peek(s, p) == END {
      items := [];
      Emptied([]);
      Nothing(before);
      HoldsNothing(s, p);
    } else {
      var t := ReadIsTree(s, p);
      TreeOf(t, s, p, p + |TreeText(t)|);
      var more := ReadAreItems(s, p + |TreeText(t)|, before + [Meaning(t)]);
      items := [t] + more;
      ItemsStep(t, more);
      HoldsConcat(s, p, TreeText(t), ItemsText(more));
      Associate(before, [Meaning(t)], ItemsMeaning(more));
    }
  }

  lemma {:induction false} ReadArePairs(s: seq<byte>, p: nat, before: seq<Entry>) returns (pairs: seq<Pair>)
    requires p <= |s| && ParseEntries(s, p, before).Accepted?
    ensures Follow(before, pairs) && Holds(s, p, PairsText(pairs)) && Peek(s, p + |PairsText(pairs)|) == END
    ensures ParseEntries(s, p, before) == Accepted(Dict(PairsMeaning(before, pairs)), p + |PairsText(pairs)| + 1)
    decreases |s| - p, 1
  {
    hide *;
    ParseEntriesStep(s, p, before);
    if Peek(s, p) == END {
      pairs := [];
      Emptied(before);
      HoldsNothing(s, p);
    } else {
      var digits, key := ReadIsLength(s, p);
      var at := p + |LengthText(digits, key)|;
      var t := ReadIsTree(s, at);
      TreeOf(t, s, at, at + |TreeText(t)|);
      var f := Pair(digits, key, t);
      var more := ReadArePairs(s, p + |LengthText(digits, key)| + |TreeText(t)|, Insert(before, key, Meaning(t)));
      pairs := [f] + more;
      PairsStep(before, f, more);
      FollowStep(before, f, more);
      HoldsThree(s, p, LengthText(digits, key), TreeText(t), PairsText(more));
    }
  }

  /**
    For every text and every offset: the decoder accepts this value and stops
    at this offset if and only if a tree that means it stands there.
   */
  lemma ParseIsExact(s: seq<byte>, p: nat, d: Data, q: nat)
    requires p <= |s|
    ensures Parse(s, p) == Accepted(d, q) <==> exists t :: Stands(t, s, p, q) && Meaning(t) == d
  {
    hide Parse, IsTree, TreeText, Meaning, Holds;
    if Parse(s, p) == Accepted(d, q) {
      var t := ReadIsTree(s, p);
      assert Stands(t, s, p, q);
    }
    forall t | Stands(t, s, p, q) && Meaning(t) == d
      ensures Parse(s, p) == Accepted(d, q)
    {
      TreeIsRead(s, p, t);
    }
  }

  // ----- What a dictionary means

  lemma {:induction false} InsertedIsFound(entries: seq<Entry>, key: seq<byte>, value: Data, other: seq<byte>)
    requires !HasKey(entries, key)
    ensures Lookup(Insert(entries, key, value), other) == if other == key then Some(value) else Lookup(entries, other)
  {
    hide Less;
    if entries == [] || Less(key, entries[0].key) {
      assert ([Entry(key, value)] + entries)[1..] == entries;
      MissingIsNotFound(entries, key);
    } else {
      assert entries[0].key != key;
      assert !HasKey(entries[1..], key) by {
        assert forall i :: 0 <= i < |entries| - 1 ==> entries[1..][i] == entries[i + 1];
      }
      InsertedIsFound(entries[1..], key, value, other);
      var rest := Insert(entries[1..], key, value);
      assert ([entries[0]] + rest)[1..] == rest;
    }
  }

  lemma {:induction false} MissingIsNotFound(entries: seq<Entry>, key: seq<byte>)
    requires !HasKey(entries, key)
    ensures Lookup(entries, key) == None
  {
    if entries != [] {
      assert !HasKey(entries[1..], key) by {
        assert forall i :: 0 <= i < |entries| - 1 ==> entries[1..][i] == entries[i + 1];
      }
      MissingIsNotFound(entries[1..], key);
    }
  }

  /** What is found under a key: what its pair says, and otherwise what was there before. */
  lemma {:induction false} PairsAreFound(entries: seq<Entry>, pairs: seq<Pair>, key: seq<byte>)
    requires Follow(entries, pairs)
    ensures (forall i :: 0 <= i < |pairs| && pairs[i].key == key ==> Lookup(PairsMeaning(entries, pairs), key) == Some(Meaning(pairs[i].value)))
    ensures (forall i :: 0 <= i < |pairs| ==> pairs[i].key != key) ==> Lookup(PairsMeaning(entries, pairs), key) == Lookup(entries, key)
    ensures Sorted(entries) ==> Sorted(PairsMeaning(entries, pairs))
    ensures |PairsMeaning(entries, pairs)| == |entries| + |pairs|
    decreases pairs
  {
    hide *;
    if pairs == [] {
      Emptied(entries);
    } else {
      var f, more := pairs[0], pairs[1..];
      assert pairs == [f] + more;
      assert forall i :: 0 < i < |pairs| ==> pairs[i] == more[i - 1];
      assert forall i :: 0 <= i < |more| ==> more[i] == pairs[i + 1];
      PairsStep(entries, f, more);
      FollowStep(entries, f, more);
      PairsAreFound(Insert(entries, f.key, Meaning(f.value)), more, key);
      InsertedIsFound(entries, f.key, Meaning(f.value), key);
      if Sorted(entries) {
        InsertKeepsOrder(entries, f.key, Meaning(f.value));
      }
      OthersDiffer(entries, f, more);
    }
  }

  lemma OthersDiffer(entries: seq<Entry>, f: Pair, more: seq<Pair>)
    requires Follow(entries, [f] + more)
    ensures forall i :: 0 <= i < |more| ==> more[i].key != f.key
  {
    hide HasKey, IsTree, IsLength;
    var all := [f] + more;
    forall i | 0 <= i < |more|
      ensures more[i].key != f.key
    {
      assert all[0] == f && all[i + 1] == more[i];
    }
  }

  /**
    A dictionary means an ordered map: its entries are in ascending order of
    their keys, as many as there are pairs, and under the key of each pair
    stands what that pair means.
   */
  lemma DictionaryIsOrderedMap(pairs: seq<Pair>, i: nat)
    requires IsTree(Pairs(pairs)) && i < |pairs|
    ensures var entries := Meaning(Pairs(pairs)).entries;
            && Sorted(entries) && |entries| == |pairs|
            && Lookup(entries, pairs[i].key) == Some(Meaning(pairs[i].value))
  {
    hide Follow, Insert, PairsMeaning, Lookup, IsTree;
    Containers([], pairs);
    PairsAreFound([], pairs, pairs[i].key);
    assert Sorted([]);
  }
}
