/**
  The decoder of include/bencode.hpp as it runs: digit loops over machine
  integers, and one loop with an explicit stack of pointers and a single
  register for the dictionary key.
 */
module BencodeDecoder {
  import opened Bytes
  import opened Bencode
  import opened BencodePointers
  import Laws = BencodeLaws

  newtype int64 = n: int | INT64_MIN <= n <= INT64_MAX
  newtype uint64 = n: int | 0 <= n <= UINT64_MAX

  datatype Error = EndOfInput | SyntaxError | DuplicateKey | Overflow | Underflow

  /** A failure carries the offset at which the decoder stopped. */
  datatype Outcome<+T> = Done(value: T, next: nat) | Failed(error: Error, at: nat)

  /** Division of machine integers truncates toward zero, and the remainder has the sign of the dividend. */
  function TruncatedQuotient(a: int, b: int): int
    requires b > 0
  {
    if a >= 0 then a / b else -(-a / b)
  }

  function TruncatedRemainder(a: int, b: int): int
    requires b > 0
  {
    a - TruncatedQuotient(a, b) * b
  }

  predicate OverflowsNext(value: int, digit: int, high: int) {
    || value > TruncatedQuotient(high, 10)
    || (value == TruncatedQuotient(high, 10) && digit > TruncatedRemainder(high, 10))
  }

  predicate UnderflowsNext(value: int, digit: int, low: int) {
    || value < TruncatedQuotient(low, 10)
    || (value == TruncatedQuotient(low, 10) && digit < TruncatedRemainder(low, 10))
  }

  /** The overflow tests look at the value and the digit apart, and decide whether the next value fits. */
  lemma OverflowTestsAreExact(value: int, digit: int, low: int, high: int)
    requires low < 0 < high
    ensures 0 <= digit < 10 ==> (OverflowsNext(value, digit, high) <==> value * 10 + digit > high)
    ensures -10 < digit <= 0 ==> (UnderflowsNext(value, digit, low) <==> value * 10 + digit < low)
  {
    var q, r := TruncatedQuotient(high, 10), TruncatedRemainder(high, 10);
    assert high == q * 10 + r && 0 <= r < 10;
    var q', r' := TruncatedQuotient(low, 10), TruncatedRemainder(low, 10);
    assert low == q' * 10 + r' && -10 < r' <= 0;
  }

  lemma {:induction false} PowersGrow(i: nat, j: nat)
    requires i <= j
    ensures Laws.Power10(i) <= Laws.Power10(j)
    decreases j - i
  {
    if i < j {
      PowersGrow(i, j - 1);
    }
  }

  lemma SmallPowers(i: nat)
    ensures i <= 18 ==> Laws.Power10(i) <= 1_000_000_000_000_000_000
    ensures i <= 19 ==> Laws.Power10(i) <= 10_000_000_000_000_000_000
  {
    Laws.Powers();
    assert Laws.Power10(19) == 10 * Laws.Power10(18);
    if i <= 18 {
      PowersGrow(i, 18);
    } else if i <= 19 {
      PowersGrow(i, 19);
    }
  }

  predicate AllDigits(s: seq<byte>, p: nat, q: nat) {
    p <= q <= |s| && forall k :: p <= k < q ==> IsDigit(s[k])
  }

  /** The number denoted by the digits from `p` to `q`. */
  function Number(s: seq<byte>, p: nat, q: nat): nat
    requires AllDigits(s, p, q)
  {
    Value(s[p..q])
  }

  lemma NumberGrows(s: seq<byte>, p: nat, q: nat)
    requires AllDigits(s, p, q) && q < |s| && IsDigit(s[q])
    ensures Number(s, p, q + 1) == Number(s, p, q) * 10 + (s[q] as int - ZERO)
  {
    assert s[p..q + 1][..q - p] == s[p..q];
  }

  lemma {:induction false} NumberBelowPower(s: seq<byte>, p: nat, q: nat)
    requires AllDigits(s, p, q)
    ensures Number(s, p, q) < Laws.Power10(q - p)
    decreases q
  {
    if p < q {
      NumberBelowPower(s, p, q - 1);
      NumberGrows(s, p, q - 1);
    }
  }

  /** Eighteen digits fit a long long, nineteen an unsigned one. */
  lemma FewDigitsFit(s: seq<byte>, p: nat, q: nat)
    requires AllDigits(s, p, q)
    ensures q - p <= 18 ==> Number(s, p, q) < 1_000_000_000_000_000_000
    ensures q - p <= 19 ==> Number(s, p, q) < 10_000_000_000_000_000_000
  {
    NumberBelowPower(s, p, q);
    SmallPowers(q - p);
  }

  lemma {:induction false} RunReaches(s: seq<byte>, p: nat, q: nat)
    requires AllDigits(s, p, q)
    ensures RunEnd(s, p) >= q
    decreases q - p
  {
    if p < q {
      RunReaches(s, p + 1, q);
    }
  }

  /** The digits from `p` to `q` are all there are. */
  lemma DigitsRead(s: seq<byte>, p: nat, q: nat, negative: bool, most: nat, low: int, high: int)
    requires AllDigits(s, p, q) && !IsDigit(Peek(s, q)) && q - p <= most
    requires low <= Signed(negative, Number(s, p, q)) <= high
    ensures ParseDigits(s, p, negative, most, low, high) ==
            if q - p < most && q == |s| then Rejected else Accepted(Signed(negative, Number(s, p, q)), q)
  {
    Laws.RunEndsAt(s, p, q);
  }

  /** There are at least `most` digits, and the first ones do not fit or are not all. */
  lemma DigitsRefused(s: seq<byte>, p: nat, q: nat, negative: bool, most: nat, low: int, high: int)
    requires AllDigits(s, p, q) && q - p == most
    requires !(low <= Signed(negative, Number(s, p, q)) <= high) || IsDigit(Peek(s, q))
    ensures ParseDigits(s, p, negative, most, low, high) == Rejected
  {
    if IsDigit(Peek(s, q)) {
      RunReaches(s, p, q + 1);
    } else {
      Laws.RunEndsAt(s, p, q);
    }
  }

  predicate AgreesSigned(r: Outcome<int64>, reading: Reading<int>) {
    match r
    case Done(value, next) => reading == Accepted(value as int, next)
    case Failed(_, _) => reading == Rejected
  }

  predicate AgreesUnsigned(r: Outcome<uint64>, reading: Reading<int>) {
    match r
    case Done(value, next) => reading == Accepted(value as int, next)
    case Failed(_, _) => reading == Rejected
  }

  /** `decode_digits` for long long: 18 digits always fit, the 19th is tested, more are refused. */
  method DecodeSigned(s: seq<byte>, begin: nat, sgn: int64) returns (r: Outcome<int64>)
    requires begin <= |s| && (sgn == 1 || sgn == -1)
    ensures AgreesSigned(r, ParseDigits(s, begin, sgn == -1, 19, INT64_MIN, INT64_MAX))
  {
    hide ParseDigits, RunEnd, Value;
    ghost var negative := sgn == -1;
    var value: int64, pos, i := 0, begin, 0;
    assert Number(s, begin, begin) == 0 by { NoDigits(s, begin); }
    while i != 18
      invariant 0 <= i <= 18 && pos == begin + i && AllDigits(s, begin, pos)
      invariant value as int == Signed(negative, Number(s, begin, pos))
      decreases 18 - i
    {
      FewDigitsFit(s, begin, pos);
      if pos == |s| {
        DigitsRead(s, begin, pos, negative, 19, INT64_MIN, INT64_MAX);
        return Failed(EndOfInput, pos);
      }
      if !IsDigit(s[pos]) {
        DigitsRead(s, begin, pos, negative, 19, INT64_MIN, INT64_MAX);
        return Done(value, pos);
      }
      NumberGrows(s, begin, pos);
      FewDigitsFit(s, begin, pos + 1);
      value := value * 10 + (s[pos] - ZERO) as int64 * sgn;
      pos, i := pos + 1, i + 1;
    }
    FewDigitsFit(s, begin, pos);
    if pos == |s| {
      DigitsRead(s, begin, pos, negative, 19, INT64_MIN, INT64_MAX);
      return Failed(EndOfInput, pos);
    }
    if !IsDigit(s[pos]) {
      DigitsRead(s, begin, pos, negative, 19, INT64_MIN, INT64_MAX);
      return Done(value, pos);
    }
    var digit := (s[pos] - ZERO) as int64 * sgn;
    pos := pos + 1;
    NumberGrows(s, begin, pos - 1);
    OverflowTestsAreExact(value as int, digit as int, INT64_MIN, INT64_MAX);
    if sgn == 1 && OverflowsNext(value as int, digit as int, INT64_MAX) {
      DigitsRefused(s, begin, pos, negative, 19, INT64_MIN, INT64_MAX);
      return Failed(Overflow, pos);
    }
    if sgn == -1 && UnderflowsNext(value as int, digit as int, INT64_MIN) {
      DigitsRefused(s, begin, pos, negative, 19, INT64_MIN, INT64_MAX);
      return Failed(Underflow, pos);
    }
    value := value * 10 + digit;
    if IsDigit(Peek(s, pos)) {
      DigitsRefused(s, begin, pos, negative, 19, INT64_MIN, INT64_MAX);
      return Failed(if sgn == 1 then Overflow else Underflow, pos);
    }
    DigitsRead(s, begin, pos, negative, 19, INT64_MIN, INT64_MAX);
    return Done(value, pos);
  }

  lemma NoDigits(s: seq<byte>, p: nat)
    requires p <= |s|
    ensures Number(s, p, p) == 0
  {
  }

  /** `decode_digits` for std::size_t: 19 digits always fit, the 20th is tested, more are refused. */
  method DecodeUnsigned(s: seq<byte>, begin: nat) returns (r: Outcome<uint64>)
    requires begin <= |s|
    ensures AgreesUnsigned(r, ParseDigits(s, begin, false, 20, 0, UINT64_MAX))
  {
    hide ParseDigits, RunEnd, Value;
    var value: uint64, pos, i := 0, begin, 0;
    assert Number(s, begin, begin) == 0 by { NoDigits(s, begin); }
    while i != 19
      invariant 0 <= i <= 19 && pos == begin + i && AllDigits(s, begin, pos)
      invariant value as int == Number(s, begin, pos)
      decreases 19 - i
    {
      FewDigitsFit(s, begin, pos);
      if pos == |s| {
        DigitsRead(s, begin, pos, false, 20, 0, UINT64_MAX);
        return Failed(EndOfInput, pos);
      }
      if !IsDigit(s[pos]) {
        DigitsRead(s, begin, pos, false, 20, 0, UINT64_MAX);
        return Done(value, pos);
      }
      NumberGrows(s, begin, pos);
      FewDigitsFit(s, begin, pos + 1);
      value := value * 10 + (s[pos] - ZERO) as uint64;
      pos, i := pos + 1, i + 1;
    }
    FewDigitsFit(s, begin, pos);
    if pos == |s| {
      DigitsRead(s, begin, pos, false, 20, 0, UINT64_MAX);
      return Failed(EndOfInput, pos);
    }
    if !IsDigit(s[pos]) {
      DigitsRead(s, begin, pos, false, 20, 0, UINT64_MAX);
      return Done(value, pos);
    }
    var digit := (s[pos] - ZERO) as uint64;
    pos := pos + 1;
    NumberGrows(s, begin, pos - 1);
    OverflowTestsAreExact(value as int, digit as int, -1, UINT64_MAX);
    if OverflowsNext(value as int, digit as int, UINT64_MAX) {
      DigitsRefused(s, begin, pos, false, 20, 0, UINT64_MAX);
      return Failed(Overflow, pos);
    }
    value := value * 10 + digit;
    if IsDigit(Peek(s, pos)) {
      DigitsRefused(s, begin, pos, false, 20, 0, UINT64_MAX);
      return Failed(Overflow, pos);
    }
    DigitsRead(s, begin, pos, false, 20, 0, UINT64_MAX);
    return Done(value, pos);
  }

  method DecodeInt(s: seq<byte>, begin: nat) returns (r: Outcome<int64>)
    requires begin < |s| && s[begin] == INT
    ensures match r
            case Done(value, next) => ParseInt(s, begin) == Accepted(Integer(value as int), next)
            case Failed(_, _) => ParseInt(s, begin) == Rejected
  {
    hide ParseDigits;
    var pos, sgn: int64 := begin + 1, 1;
    if Peek(s, pos) == MINUS {
      sgn, pos := -1, pos + 1;
    }
    r := DecodeSigned(s, pos, sgn);
    if r.Done? {
      if Peek(s, r.next) != END {
        return Failed(SyntaxError, r.next);
      }
      return Done(r.value, r.next + 1);
    }
  }

  method DecodeStr(s: seq<byte>, begin: nat) returns (r: Outcome<seq<byte>>)
    requires begin < |s| && IsDigit(s[begin])
    ensures match r
            case Done(value, next) => ParseStr(s, begin) == Accepted(value, next)
            case Failed(_, _) => ParseStr(s, begin) == Rejected
  {
    hide ParseDigits;
    var len := DecodeUnsigned(s, begin);
    match len {
      case Failed(error, at) => return Failed(error, at);
      case Done(n, pos) =>
        if pos == |s| {
          return Failed(EndOfInput, pos);
        }
        if s[pos] != COLON {
          return Failed(SyntaxError, pos);
        }
        if |s| - (pos + 1) < n as int {
          return Failed(EndOfInput, |s|);
        }
        return Done(s[pos + 1..pos + 1 + n as int], pos + 1 + n as int);
    }
  }

  // ----- The machine

  function Top(state: seq<Pointer>): Pointer
    requires state != []
  {
    state[|state| - 1]
  }

  /** Each pointer on the stack leads one hop further than the one below it, and the top one to a container. */
  predicate StackOk(result: Data, state: seq<Pointer>) {
    && (forall k :: 0 <= k < |state| ==> |state[k]| == k)
    && (forall k :: 0 < k < |state| ==> state[k][..k - 1] == state[k - 1])
    && (state != [] ==> At(result, Top(state)).Some? && IsContainer(At(result, Top(state)).value))
  }

  /** What the decoder will answer if it goes on from here. */
  function Pending(s: seq<byte>, pos: nat, result: Data, state: seq<Pointer>): Reading<Data>
    requires pos <= |s|
  {
    if state == [] then Accepted(result, pos) else Finish(s, pos, result, Top(state))
  }

  lemma PopKeepsStack(result: Data, state: seq<Pointer>)
    requires StackOk(result, state) && state != []
    ensures StackOk(result, state[..|state| - 1])
  {
  }

  lemma PushKeepsStack(result: Data, state: seq<Pointer>, hop: Hop, result': Data)
    requires StackOk(result, state) && state != []
    requires At(result', Top(state) + [hop]).Some? && IsContainer(At(result', Top(state) + [hop]).value)
    ensures StackOk(result', state + [Top(state) + [hop]])
  {
    assert (Top(state) + [hop])[..|Top(state)|] == Top(state);
  }

  /** Stores a thing at the root, at the end of a list, or under the key register; a taken key is refused. */
  method Store(result: Data, state: seq<Pointer>, dictKey: seq<byte>, thing: Data)
    returns (ok: bool, result': Data, place: Pointer)
    requires StackOk(result, state)
    ensures state == [] ==> ok && result' == thing && place == []
    ensures state != [] ==>
              var d := At(result, Top(state)).value;
              && (ok <==> CanStore(d, dictKey))
              && (ok ==> result' == Put(result, Top(state), Stored(d, dictKey, thing)))
              && (ok ==> place == Top(state) + [StoredHop(d, dictKey)])
  {
    if state == [] {
      return true, thing, [];
    }
    var top := state[|state| - 1];
    var container := At(result, top).value;
    match container {
      case List(items) =>
        return true, Put(result, top, List(items + [thing])), top + [Item(|items|)];
      case Dict(entries) =>
        if HasKey(entries, dictKey) {
          return false, result, top;
        }
        return true, Put(result, top, Dict(Insert(entries, dictKey, thing))), top + [Under(dictKey)];
    }
  }

  /** The key register is filled when an element of a dictionary comes next. */
  method ReadKey(s: seq<byte>, pos: nat, result: Data, state: seq<Pointer>, dictKey: seq<byte>)
    returns (r: Outcome<seq<byte>>)
    requires pos < |s| && s[pos] != END && StackOk(result, state)
    ensures r.Failed? ==> state != [] && Finish(s, pos, result, Top(state)) == Rejected
    ensures r.Done? ==>
              && pos <= r.next < |s|
              && (state == [] ==> r.next == pos)
              && (state != [] ==> ReadsElement(s, pos, At(result, Top(state)).value, r.value, r.next))
  {
    hide ParseStr;
    if state == [] || !At(result, Top(state)).value.Dict? {
      return Done(dictKey, pos);
    }
    if !IsDigit(s[pos]) {
      return Failed(SyntaxError, pos);
    }
    r := DecodeStr(s, pos);
    if r.Done? && r.next == |s| {
      return Failed(EndOfInput, r.next);
    }
  }

  /** A thing that was read whole goes to its place. */
  method StoreRead(s: seq<byte>, start: nat, from: nat, next: nat, result: Data, state: seq<Pointer>,
                   dictKey: seq<byte>, thing: Data)
    returns (ok: bool, result': Data)
    requires start <= from < next <= |s| && StackOk(result, state)
    requires Parse(s, from) == Accepted(thing, next)
    requires state == [] ==> start == from
    requires state != [] ==> ReadsElement(s, start, At(result, Top(state)).value, dictKey, from)
    ensures ok ==> StackOk(result', state)
    ensures state == [] ==> ok && result' == thing
    ensures state != [] ==>
              Finish(s, start, result, Top(state)) == if ok then Pending(s, next, result', state) else Rejected
  {
    hide Parse, ReadsElement, Finish;
    var place;
    ok, result', place := Store(result, state, dictKey, thing);
    if state != [] {
      FinishElement(s, start, result, Top(state), dictKey, from);
      if ok {
        PutLaws(result, Top(state), Stored(At(result, Top(state)).value, dictKey, thing), thing);
      }
    }
  }

  /** An empty container goes to its place, and a pointer to it onto the stack. */
  method Open(s: seq<byte>, start: nat, from: nat, result: Data, state: seq<Pointer>, dictKey: seq<byte>, empty: Data)
    returns (ok: bool, result': Data, state': seq<Pointer>)
    requires start <= from < |s| && StackOk(result, state)
    requires (s[from] == LIST && empty == List([])) || (s[from] == DICT && empty == Dict([]))
    requires state == [] ==> start == from
    requires state != [] ==> ReadsElement(s, start, At(result, Top(state)).value, dictKey, from)
    ensures ok ==> StackOk(result', state') && state' != []
    ensures (if state == [] then Parse(s, start) else Finish(s, start, result, Top(state)))
            == if ok then Pending(s, from + 1, result', state') else Rejected
  {
    hide ReadsElement;
    var place;
    ok, result', place := Store(result, state, dictKey, empty);
    state' := state + [place];
    if state != [] {
      FinishOpened(s, start, result, Top(state), dictKey, from, empty);
      hide Parse, Finish;
      if ok {
        PushKeepsStack(result, state, StoredHop(At(result, Top(state)).value, dictKey), result');
      }
    }
  }

  /** Which reader the first byte of a value selects. */
  lemma ParseByFirstByte(s: seq<byte>, p: nat)
    requires p <= |s|
    ensures p < |s| && s[p] == INT ==> Parse(s, p) == ParseInt(s, p)
    ensures p < |s| && IsDigit(s[p]) ==>
              Parse(s, p) == match ParseStr(s, p) case Rejected => Rejected case Accepted(x, q) => Accepted(Str(x), q)
    ensures p == |s| || (s[p] !in {INT, LIST, DICT} && !IsDigit(s[p])) ==> Parse(s, p) == Rejected
  {
  }

  /** When the next element cannot be read, the whole text is refused. */
  lemma ElementRefused(s: seq<byte>, pos: nat, from: nat, result: Data, state: seq<Pointer>, key: seq<byte>)
    requires pos <= from <= |s| && StackOk(result, state)
    requires state == [] ==> pos == from
    requires state != [] ==> ReadsElement(s, pos, At(result, Top(state)).value, key, from)
    requires Parse(s, from) == Rejected
    ensures (if state == [] then Parse(s, pos) else Finish(s, pos, result, Top(state))) == Rejected
  {
    hide Parse, ReadsElement;
    if state != [] {
      FinishElement(s, pos, result, Top(state), key, from);
    }
  }

  lemma InputEnded(s: seq<byte>, result: Data, state: seq<Pointer>)
    requires StackOk(result, state)
    ensures (if state == [] then Parse(s, |s|) else Finish(s, |s|, result, Top(state))) == Rejected
  {
  }

  /**
    `basic_decode`: one loop over the tokens. It answers what reading the
    text by recursive descent answers, value and offset, and fails exactly
    when that does.
   */
  method BasicDecode(s: seq<byte>, begin: nat) returns (r: Outcome<Data>)
    requires begin <= |s|
    ensures match r
            case Done(value, next) => Parse(s, begin) == Accepted(value, next)
            case Failed(_, _) => Parse(s, begin) == Rejected
  {
    hide Parse, Finish, ParseInt, ParseStr, ReadsElement, StackOk, IsContainer, At;
    var result, pos := Integer(0), begin;
    var state: seq<Pointer> := [];
    var dictKey: seq<byte> := [];
    var first := true;
    EmptyStackOk(result);
    while first || state != []
      invariant begin <= pos <= |s| && StackOk(result, state)
      invariant first ==> state == [] && pos == begin
      invariant !first ==> Parse(s, begin) == Pending(s, pos, result, state)
      decreases |s| - pos
    {
      if pos == |s| {
        InputEnded(s, result, state);
        return Failed(EndOfInput, pos);
      }
      if s[pos] == END {
        if state == [] {
          ParseByFirstByte(s, pos);
          return Failed(SyntaxError, pos);
        }
        EndOfContainer(s, pos, result, state);
        pos, state := pos + 1, state[..|state| - 1];
      } else {
        var key := ReadKey(s, pos, result, state, dictKey);
        if key.Failed? {
          return Failed(key.error, key.at);
        }
        dictKey := key.value;
        var from, ok := key.next, true;
        ParseByFirstByte(s, from);
        if s[from] == INT {
          var n := DecodeInt(s, from);
          if n.Failed? {
            ElementRefused(s, pos, from, result, state, dictKey);
            return Failed(n.error, n.at);
          }
          ok, result := StoreRead(s, pos, from, n.next, result, state, dictKey, Integer(n.value as int));
          pos := n.next;
        } else if s[from] == LIST {
          ok, result, state := Open(s, pos, from, result, state, dictKey, List([]));
          pos := from + 1;
        } else if s[from] == DICT {
          ok, result, state := Open(s, pos, from, result, state, dictKey, Dict([]));
          pos := from + 1;
        } else if IsDigit(s[from]) {
          var str := DecodeStr(s, from);
          if str.Failed? {
            ElementRefused(s, pos, from, result, state, dictKey);
            return Failed(str.error, str.at);
          }
          ok, result := StoreRead(s, pos, from, str.next, result, state, dictKey, Str(str.value));
          pos := str.next;
        } else {
          ElementRefused(s, pos, from, result, state, dictKey);
          return Failed(SyntaxError, from);
        }
        if !ok {
          return Failed(DuplicateKey, pos);
        }
      }
      first := false;
    }
    return Done(result, pos);
  }

  lemma EmptyStackOk(result: Data)
    ensures StackOk(result, [])
  {
  }

  lemma EndOfContainer(s: seq<byte>, pos: nat, result: Data, state: seq<Pointer>)
    requires pos < |s| && s[pos] == END && StackOk(result, state) && state != []
    ensures StackOk(result, state[..|state| - 1])
    ensures Finish(s, pos, result, Top(state)) == Pending(s, pos + 1, result, state[..|state| - 1])
  {
    hide ParseRest;
    FinishEnd(s, pos, result, Top(state));
    PopKeepsStack(result, state);
    hide Finish;
  }
}
