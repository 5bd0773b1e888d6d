/**
 * Machine words and the abstract operand stack.
 *
 * A word is an unsigned 256-bit integer (the `U256` of the source); only
 * comparison with 0 and 1 is ever performed on it, so it is modelled as a
 * bounded `nat`. The abstract stack is the sequence of live words, bottom
 * first, so the last element is the top of the stack.
 */
module Words {
  import opened Wrappers

  const WordModulus: nat := 0x1_0000_0000_0000_0000_0000_0000_0000_0000_0000_0000_0000_0000_0000_0000_0000_0000

  /** A 256-bit unsigned word. */
  type Word = w: nat | w < WordModulus

  /** An 8-bit unsigned byte (`u8`). */
  type Byte = b: nat | b < 256

  /** Number of words the operand stack can hold. */
  const Capacity: nat := 1024

  /** `usize` is 64 bits wide on the target; `as_usize` keeps the low 64 bits. */
  const UsizeModulus: nat := 0x1_0000_0000_0000_0000

  function AsUsize(w: Word): (i: nat)
    ensures i < UsizeModulus
    ensures w < UsizeModulus ==> i == w
  {
    w % UsizeModulus
  }

  /** `u8 as usize` never changes the value, `usize as u8` keeps the low 8 bits. */
  function TruncateToByte(n: nat): (b: Byte)
    ensures n < 256 ==> b == n
  {
    n % 256
  }

  /** Abstract `push32`: appends at the top, or does nothing when the stack is full. */
  function Push(s: seq<Word>, w: Word): seq<Word>
  {
    if |s| < Capacity then s + [w] else s
  }

  /** Abstract `pop`: the top word and the rest of the stack, or `None` when empty. */
  function Pop(s: seq<Word>): Option<(Word, seq<Word>)>
  {
    if |s| == 0 then None else Some((s[|s| - 1], s[..|s| - 1]))
  }

  /** Abstract `swap`: exchanges the two topmost words. */
  function SwapTop(s: seq<Word>): (r: seq<Word>)
    requires |s| >= 2
    ensures |r| == |s| && r[|r| - 1] == s[|s| - 2] && r[|r| - 2] == s[|s| - 1]
    ensures r[..|r| - 2] == s[..|s| - 2]
  {
    s[..|s| - 2] + [s[|s| - 1], s[|s| - 2]]
  }

  /** A push onto a stack with room, followed by a pop, gives back the word and the old stack. */
  lemma PushPopRoundTrip(s: seq<Word>, w: Word)
    requires |s| < Capacity
    ensures Pop(Push(s, w)) == Some((w, s))
  {
    assert (s + [w])[..|s|] == s;
  }

  /** A push onto a full stack is silently dropped. */
  lemma PushFullIsDropped(s: seq<Word>, w: Word)
    requires |s| == Capacity
    ensures Push(s, w) == s
  {
  }

  /** Depth stays within [0, Capacity] under push and pop. */
  lemma DepthStaysBounded(s: seq<Word>, w: Word)
    requires |s| <= Capacity
    ensures |Push(s, w)| <= Capacity
    ensures |Push(s, w)| == if |s| < Capacity then |s| + 1 else |s|
    ensures Pop(s).Some? ==> |Pop(s).value.1| == |s| - 1
  {
  }

  /** Swapping twice restores the stack. */
  lemma SwapTopInvolution(s: seq<Word>)
    requires |s| >= 2
    ensures SwapTop(SwapTop(s)) == s
  {
    var t := SwapTop(s);
    assert t[..|t| - 2] == s[..|s| - 2];
    assert SwapTop(t) == s[..|s| - 2] + [s[|s| - 2], s[|s| - 1]];
    assert s == s[..|s| - 2] + [s[|s| - 2], s[|s| - 1]];
  }
}
