/** The loops of `Request::send` in include/httprequest.hpp that collect a body, from the end of the header on. */
module ResponseBody {
  import opened Bytes
  import opened Chunked
  import Hex

  /** Either the body of the response that is returned, or the exception. */
  datatype Outcome = Body(bytes: seq<byte>) | ResponseError

  /** A connection that ends early returns what has arrived. */
  function Result(st: State): Outcome {
    if st.Invalid? then ResponseError else Body(st.body)
  }

  method HexStringToUint(line: seq<byte>) returns (r: Option<nat>)
    ensures r == HexUint(line)
  {
    var result := 0;
    var i := 0;
    while i < |line|
      invariant 0 <= i <= |line|
      invariant HexUint(line[..i]) == Some(result)
    {
      assert line[..i + 1][..i] == line[..i];
      var digit := Hex.DigitValue(line[i]);
      if digit.None? {
        InvalidDigit(line, i);
        return None;
      }
      result := (16 * result + digit.value) % TWO_64;
      i := i + 1;
    }
    assert line[..|line|] == line;
    return Some(result);
  }

  lemma {:induction false} InvalidDigit(line: seq<byte>, i: nat)
    requires i < |line| && Hex.DigitValue(line[i]).None?
    ensures HexUint(line) == None
  {
    if i < |line| - 1 {
      InvalidDigit(line[..|line| - 1], i);
    }
  }

  lemma {:induction false} ReceiveNoMore(st: State, recvs: seq<seq<byte>>)
    requires !st.Reading?
    ensures Receive(st, recvs) == st
    decreases |recvs|
  {
    if recvs == [] {
    } else {
      ReceiveNoMore(st, recvs[1..]);
    }
  }

  /** The inner loop: what the buffer yields before more data is needed. */
  method DrainBuffer(st: State) returns (r: State)
    requires st.Reading?
    ensures r == Drain(st)
  {
    hide HexUint, FindCrlf;
    var responseData, body := st.buffer, st.body;
    var expectedChunkSize, removeCrlfAfterChunk := st.expected, st.removeCrlf;
    while true
      invariant Drain(Reading(responseData, body, expectedChunkSize, removeCrlfAfterChunk)) == Drain(st)
      decreases |responseData|
    {
      ghost var now := Reading(responseData, body, expectedChunkSize, removeCrlfAfterChunk);
      if expectedChunkSize > 0 {
        var toWrite := Least(expectedChunkSize, |responseData|);
        body := body + responseData[..toWrite];
        responseData := responseData[toWrite..];
        expectedChunkSize := expectedChunkSize - toWrite;
        if expectedChunkSize == 0 {
          removeCrlfAfterChunk := true;
        }
        assert TakeData(now) == Reading(responseData, body, expectedChunkSize, removeCrlfAfterChunk);
        if responseData == [] {
          return Reading(responseData, body, expectedChunkSize, removeCrlfAfterChunk);
        }
      } else {
        if removeCrlfAfterChunk {
          if |responseData| < 2 {
            return Reading(responseData, body, expectedChunkSize, removeCrlfAfterChunk);
          }
          if !CrlfAt(responseData, 0) {
            return Invalid;
          }
          removeCrlfAfterChunk := false;
          responseData := responseData[2..];
        }
        assert Drain(st) == ReadSize(responseData, body);
        var i := FindCrlf(responseData);
        if i.None? {
          return Reading(responseData, body, expectedChunkSize, removeCrlfAfterChunk);
        }
        var size := HexStringToUint(responseData[..i.value]);
        if size.None? {
          return Invalid;
        }
        expectedChunkSize := size.value;
        responseData := responseData[i.value + 2..];
        if expectedChunkSize == 0 {
          return Finished(body);
        }
      }
    }
  }

  /** `recvs` is what each call of `recv` returns until the connection ends. */
  method ReceiveChunked(recvs: seq<seq<byte>>) returns (r: Outcome)
    ensures r == Result(Receive(START, recvs))
  {
    hide Drain;
    var st: State := START;
    var k := 0;
    while k < |recvs|
      invariant 0 <= k <= |recvs|
      invariant st.Reading? && Receive(START, recvs) == Receive(st, recvs[k..])
    {
      assert recvs[k..][0] == recvs[k] && recvs[k..][1..] == recvs[k + 1..];
      st := DrainBuffer(st.(buffer := st.buffer + recvs[k]));
      k := k + 1;
      if !st.Reading? {
        ReceiveNoMore(st, recvs[k..]);
        return Result(st);
      }
    }
    return Body(st.body);
  }

  // ----- Without a transfer coding

  /** Whatever arrives is the body, until there are at least `length` bytes, if a length was announced. */
  function Collect(body: seq<byte>, recvs: seq<seq<byte>>, length: Option<nat>): seq<byte>
    decreases |recvs|
  {
    if recvs == [] then body
    else
      var more := body + recvs[0];
      if length.Some? && |more| >= length.value then more else Collect(more, recvs[1..], length)
  }

  method ReceivePlain(recvs: seq<seq<byte>>, length: Option<nat>) returns (body: seq<byte>)
    ensures body == Collect([], recvs, length)
  {
    body := [];
    var k := 0;
    while k < |recvs|
      invariant 0 <= k <= |recvs|
      invariant Collect([], recvs, length) == Collect(body, recvs[k..], length)
    {
      assert recvs[k..][0] == recvs[k] && recvs[k..][1..] == recvs[k + 1..];
      body := body + recvs[k];
      k := k + 1;
      if length.Some? && |body| >= length.value {
        return;
      }
    }
  }

  lemma {:induction false} CollectIsPrefix(body: seq<byte>, recvs: seq<seq<byte>>, length: Option<nat>)
    ensures Collect(body, recvs, length) <= body + Concat(recvs)
    ensures length.None? || |body + Concat(recvs)| <= length.value ==> Collect(body, recvs, length) == body + Concat(recvs)
    decreases |recvs|
  {
    if recvs == [] {
      assert body + Concat(recvs) == body;
    } else {
      var more := body + recvs[0];
      assert body + Concat(recvs) == more + Concat(recvs[1..]);
      CollectIsPrefix(more, recvs[1..], length);
    }
  }

  /** The parts from the start up to the first with which the length is reached, or all of them. */
  function PartsTaken(have: nat, recvs: seq<seq<byte>>, length: Option<nat>): (k: nat)
    ensures k <= |recvs| && (recvs != [] ==> k > 0)
    decreases |recvs|
  {
    if recvs == [] then 0
    else if length.Some? && have + |recvs[0]| >= length.value then 1
    else 1 + PartsTaken(have + |recvs[0]|, recvs[1..], length)
  }

  lemma {:induction false} ConcatLength(recvs: seq<seq<byte>>, k: nat)
    requires k < |recvs|
    ensures Concat(recvs[..k + 1]) == recvs[0] + Concat(recvs[1..][..k])
  {
    assert recvs[..k + 1][1..] == recvs[1..][..k];
  }

  /** No part is taken once the length is reached, and parts are taken until it is. */
  lemma {:induction false} PartsReachLength(have: nat, recvs: seq<seq<byte>>, length: Option<nat>)
    ensures var k := PartsTaken(have, recvs, length);
            && (forall j :: 0 < j < k && length.Some? ==> have + |Concat(recvs[..j])| < length.value)
            && (k < |recvs| ==> length.Some? && have + |Concat(recvs[..k])| >= length.value)
    decreases |recvs|
  {
    if recvs == [] {
    } else {
      var k := PartsTaken(have, recvs, length);
      ConcatLength(recvs, 0);
      assert Concat(recvs[1..][..0]) == [];
      if k > 1 || !(length.Some? && have + |recvs[0]| >= length.value) {
        PartsReachLength(have + |recvs[0]|, recvs[1..], length);
        forall j | 0 < j <= k
          ensures Concat(recvs[..j]) == recvs[0] + Concat(recvs[1..][..j - 1])
        {
          ConcatLength(recvs, j - 1);
        }
      }
    }
  }

  /** The body is what the taken parts hold, all of it: what arrives beyond the length in the last of them is kept. */
  lemma {:induction false} CollectTakesWholeParts(body: seq<byte>, recvs: seq<seq<byte>>, length: Option<nat>)
    ensures Collect(body, recvs, length) == body + Concat(recvs[..PartsTaken(|body|, recvs, length)])
    decreases |recvs|
  {
    if recvs == [] {
      Nothing(body);
    } else {
      var more, k := body + recvs[0], PartsTaken(|body|, recvs, length);
      ConcatLength(recvs, k - 1);
      if length.Some? && |more| >= length.value {
        assert recvs[1..][..0] == [];
        Nothing(recvs[0]);
      } else {
        CollectTakesWholeParts(more, recvs[1..], length);
        Associate(body, recvs[0], Concat(recvs[1..][..k - 1]));
      }
    }
  }

  /**
    With an announced length the body does not depend on how the data
    arrives exactly if no more than that length arrives; what arrives beyond
    it is cut off or kept according to where the calls of `recv` divide it.
   */
  lemma LengthIsExact(data: seq<byte>, length: nat)
    ensures (forall recvs :: recvs != [] && Concat(recvs) == data ==> Collect([], recvs, Some(length)) == data)
            <==> |data| <= length
  {
    hide Concat, Collect;
    if |data| <= length {
      forall recvs | recvs != [] && Concat(recvs) == data
        ensures Collect([], recvs, Some(length)) == data
      {
        CollectIsPrefix([], recvs, Some(length));
        assert [] + data == data;
      }
    } else {
      CutAtLength(data, length);
    }
  }

  lemma CutAtLength(data: seq<byte>, length: nat)
    requires length < |data|
    ensures var cut := [data[..length], data[length..]];
            Concat(cut) == data && Collect([], cut, Some(length)) == data[..length] != data
  {
    var cut := [data[..length], data[length..]];
    assert cut[1..] == [data[length..]];
    assert Concat(cut[1..]) == data[length..];
    assert Concat(cut) == data;
    assert [] + data[..length] == data[..length];
    assert |data[..length]| != |data|;
  }
}
