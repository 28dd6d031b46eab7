/** Ring buffers: an array, an in-pointer and an out-pointer, with one place always left free. */
module Ring {

  /** The place after place `i` in a ring of `n` places. */
  function Next(i: nat, n: nat): nat
    requires i < n
  {
    if i + 1 == n then 0 else i + 1
  }

  /** With 2048 places a pointer is advanced by masking it. */
  lemma NextIs(i: nat)
    requires i < 2048
    ensures Next(i, 2048) == (i + 1) % 2048
  {
  }

  /** What a ring holds, oldest first. */
  ghost function Contents<T>(buffer: seq<T>, outPtr: nat, inPtr: nat): seq<T>
    requires outPtr < |buffer| && inPtr < |buffer|
  {
    if outPtr <= inPtr then buffer[outPtr..inPtr] else buffer[outPtr..] + buffer[..inPtr]
  }

  lemma Size<T>(buffer: seq<T>, outPtr: nat, inPtr: nat)
    requires outPtr < |buffer| && inPtr < |buffer|
    ensures |Contents(buffer, outPtr, inPtr)| == if inPtr < outPtr then |buffer| + inPtr - outPtr else inPtr - outPtr
    ensures Contents(buffer, outPtr, inPtr) == [] <==> outPtr == inPtr
    ensures |Contents(buffer, outPtr, inPtr)| == |buffer| - 1 <==> Next(inPtr, |buffer|) == outPtr
  {
  }

  /** Storing at the in-pointer appends, as long as one place stays free. */
  lemma Put<T>(buffer: seq<T>, outPtr: nat, inPtr: nat, x: T)
    requires outPtr < |buffer| && inPtr < |buffer| && Next(inPtr, |buffer|) != outPtr
    ensures Contents(buffer[inPtr := x], outPtr, Next(inPtr, |buffer|)) == Contents(buffer, outPtr, inPtr) + [x]
  {
  }

  /** Fetching at the out-pointer takes the oldest element. */
  lemma Get<T>(buffer: seq<T>, outPtr: nat, inPtr: nat)
    requires outPtr < |buffer| && inPtr < |buffer| && outPtr != inPtr
    ensures Contents(buffer, outPtr, inPtr) == [buffer[outPtr]] + Contents(buffer, Next(outPtr, |buffer|), inPtr)
  {
  }

  /** With 2048 places: fetching and masking. */
  lemma Take<T>(buffer: seq<T>, outPtr: nat, inPtr: nat)
    requires outPtr < |buffer| == 2048 && inPtr < 2048 && outPtr != inPtr
    ensures var c := Contents(buffer, outPtr, inPtr);
      c != [] && c[0] == buffer[outPtr] && c[1..] == Contents(buffer, (outPtr + 1) % 2048, inPtr)
  {
    Get(buffer, outPtr, inPtr);
    NextIs(outPtr);
  }
}
