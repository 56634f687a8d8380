/**
 * joinArrayBuffers: a new buffer holding the given buffers one after the other. The total
 * length is folded first; then a zero-filled output is allocated and each input is copied
 * in at a running offset.
 */
module JoinArrayBuffers {
  import opened Bytes

  /** The in-order concatenation of byte strings. */
  function Concat(parts: seq<seq<byte>>): seq<byte>
  {
    if parts == [] then [] else Concat(parts[..|parts| - 1]) + parts[|parts| - 1]
  }

  /** The `reduce` that adds up the byteLength of each buffer, left to right from 0. */
  function TotalLength(buffers: seq<array<byte>>): nat
  {
    if buffers == [] then 0 else TotalLength(buffers[..|buffers| - 1]) + buffers[|buffers| - 1].Length
  }

  /** No buffer is longer than the total, and the total is 0 exactly when every buffer is empty. */
  lemma {:induction false} TotalLengthBounds(buffers: seq<array<byte>>)
    ensures forall i :: 0 <= i < |buffers| ==> buffers[i].Length <= TotalLength(buffers)
    ensures TotalLength(buffers) == 0 <==> forall i :: 0 <= i < |buffers| ==> buffers[i].Length == 0
  {
    if buffers != [] {
      TotalLengthBounds(buffers[..|buffers| - 1]);
    }
  }

  /** The total of a prefix of the buffers is at most the total of them all. */
  lemma {:induction false} TotalLengthPrefix(buffers: seq<array<byte>>, i: nat)
    requires i <= |buffers|
    ensures TotalLength(buffers[..i]) <= TotalLength(buffers)
  {
    if i < |buffers| {
      var init := buffers[..|buffers| - 1];
      assert init[..i] == buffers[..i];
      TotalLengthPrefix(init, i);
    } else {
      assert buffers[..i] == buffers;
    }
  }

  /**
   * Where buffer i starts in the joined buffer: the fold of the lengths of the buffers before
   * it. The first buffer starts at 0, and every buffer ends within the total.
   */
  function Offset(buffers: seq<array<byte>>, i: nat): (r: nat)
    requires i <= |buffers|
    ensures i == 0 ==> r == 0
    ensures i < |buffers| ==> r + buffers[i].Length <= TotalLength(buffers)
  {
    if i == |buffers| then TotalLength(buffers[..i])
    else
      TotalLengthPrefix(buffers, i + 1);
      assert buffers[..i + 1][..i] == buffers[..i];
      TotalLength(buffers[..i])
  }

  /** The current contents of each buffer. */
  ghost function Contents(buffers: seq<array<byte>>): (parts: seq<seq<byte>>)
    reads buffers
    ensures |parts| == |buffers|
    ensures forall i :: 0 <= i < |buffers| ==> parts[i] == buffers[i][..]
  {
    seq(|buffers|, i reads buffers requires 0 <= i < |buffers| => buffers[i][..])
  }

  lemma {:induction false} ConcatAppend(a: seq<seq<byte>>, b: seq<seq<byte>>)
    ensures Concat(a + b) == Concat(a) + Concat(b)
  {
    if b != [] {
      assert (a + b)[..|a + b| - 1] == a + b[..|b| - 1];
      ConcatAppend(a, b[..|b| - 1]);
    } else {
      assert a + b == a;
    }
  }

  /** The fold's total is the length of the concatenation. */
  lemma {:induction false} TotalLengthIsConcatLength(buffers: seq<array<byte>>, parts: seq<seq<byte>>)
    requires |parts| == |buffers|
    requires forall i :: 0 <= i < |buffers| ==> |parts[i]| == buffers[i].Length
    ensures TotalLength(buffers) == |Concat(parts)|
  {
    if buffers != [] {
      TotalLengthIsConcatLength(buffers[..|buffers| - 1], parts[..|parts| - 1]);
    }
  }

  /** Part i occupies the window that starts after the parts before it. */
  lemma {:induction false} ConcatAt(parts: seq<seq<byte>>, i: nat)
    requires i < |parts|
    ensures |Concat(parts[..i])| + |parts[i]| <= |Concat(parts)|
    ensures Concat(parts)[|Concat(parts[..i])|..|Concat(parts[..i])| + |parts[i]|] == parts[i]
  {
    assert parts == parts[..i] + [parts[i]] + parts[i + 1..];
    ConcatAppend(parts[..i] + [parts[i]], parts[i + 1..]);
    ConcatAppend(parts[..i], [parts[i]]);
    assert Concat([parts[i]]) == parts[i] by {
      var single: seq<seq<byte>> := [parts[i]];
      assert single[..0] == [];
    }
  }

  /** Joining no buffers gives an empty one; joining one gives a copy of it. */
  lemma ConcatFewParts(parts: seq<seq<byte>>)
    ensures parts == [] ==> Concat(parts) == []
    ensures |parts| == 1 ==> Concat(parts) == parts[0]
  {
    if |parts| == 1 {
      assert parts[..0] == [];
    }
  }

  /** Buffer i's bytes sit in the joined buffer from Offset(buffers, i) on. */
  lemma {:induction false} JoinAt(buffers: seq<array<byte>>, parts: seq<seq<byte>>, i: nat)
    requires |parts| == |buffers|
    requires forall i :: 0 <= i < |buffers| ==> |parts[i]| == buffers[i].Length
    requires i < |buffers|
    ensures Offset(buffers, i) + |parts[i]| <= |Concat(parts)|
    ensures Concat(parts)[Offset(buffers, i)..Offset(buffers, i) + |parts[i]|] == parts[i]
  {
    ConcatAt(parts, i);
    TotalLengthIsConcatLength(buffers[..i], parts[..i]);
  }

  /**
   * Layout of the concatenation: buffer i fills the window from Offset(buffers, i) to
   * Offset(buffers, i + 1), one window after the other.
   */
  lemma {:induction false} JoinLayout(buffers: seq<array<byte>>, parts: seq<seq<byte>>)
    requires |parts| == |buffers|
    requires forall i :: 0 <= i < |buffers| ==> |parts[i]| == buffers[i].Length
    ensures forall i :: 0 <= i < |buffers| ==>
      Offset(buffers, i + 1) == Offset(buffers, i) + |parts[i]| <= |Concat(parts)| &&
      Concat(parts)[Offset(buffers, i)..Offset(buffers, i + 1)] == parts[i]
  {
    forall i | 0 <= i < |buffers|
      ensures Offset(buffers, i + 1) == Offset(buffers, i) + |parts[i]| <= |Concat(parts)|
      ensures Concat(parts)[Offset(buffers, i)..Offset(buffers, i + 1)] == parts[i]
    {
      JoinAt(buffers, parts, i);
      assert buffers[..i + 1][..i] == buffers[..i];
    }
  }

  /** One more buffer: the running offset grows by its length and stays within the total. */
  lemma {:induction false} JoinStep(buffers: seq<array<byte>>, parts: seq<seq<byte>>, n: nat)
    requires n < |buffers| && |parts| == |buffers|
    requires forall i :: 0 <= i < |buffers| ==> |parts[i]| == buffers[i].Length
    ensures TotalLength(buffers[..n + 1]) == TotalLength(buffers[..n]) + buffers[n].Length
    ensures TotalLength(buffers[..n + 1]) <= TotalLength(buffers)
    ensures Concat(parts[..n + 1]) == Concat(parts[..n]) + parts[n]
  {
    assert buffers[..n + 1][..n] == buffers[..n];
    assert parts[..n + 1][..n] == parts[..n];
    TotalLengthIsConcatLength(buffers[..n + 1], parts[..n + 1]);
    TotalLengthIsConcatLength(buffers, parts);
    assert parts == parts[..n + 1] + parts[n + 1..];
    ConcatAppend(parts[..n + 1], parts[n + 1..]);
  }

  /**
   * TypedArray.prototype.set(source, offset) for a source that fits: the bytes of source
   * replace those of target from offset on, and nothing else in target changes.
   */
  method Set(target: array<byte>, source: seq<byte>, offset: nat)
    requires offset + |source| <= target.Length
    modifies target
    ensures target[..] == old(target[..offset]) + source + old(target[offset + |source|..])
  {
    forall j | 0 <= j < |source| {
      target[offset + j] := source[j];
    }
  }

  /** Copies every input, in order, into one freshly allocated buffer of the summed length. */
  method JoinArrayBuffers(buffers: seq<array<byte>>) returns (out: array<byte>)
    ensures fresh(out) && out !in buffers
    ensures out.Length == TotalLength(buffers)
    ensures out[..] == Concat(Contents(buffers))
    ensures forall i :: 0 <= i < |buffers| ==>
      Offset(buffers, i + 1) == Offset(buffers, i) + buffers[i].Length <= out.Length &&
      out[Offset(buffers, i)..Offset(buffers, i + 1)] == buffers[i][..]
    ensures Contents(buffers) == old(Contents(buffers))
  {
    ghost var parts := Contents(buffers);
    var byteLength := TotalLength(buffers);
    out := new byte[byteLength](_ => 0);
    var offset := 0;
    for n := 0 to |buffers|
      invariant offset == TotalLength(buffers[..n]) <= byteLength
      invariant out[..offset] == Concat(parts[..n])
      invariant forall m :: 0 <= m < |buffers| ==> buffers[m][..] == parts[m]
    {
      var buffer := buffers[n];
      JoinStep(buffers, parts, n);
      ghost var before := out[..offset];
      Set(out, buffer[..], offset);
      assert out[..offset + buffer.Length] == before + parts[n];
      offset := offset + buffer.Length;
    }
    assert buffers[..|buffers|] == buffers && parts[..|buffers|] == parts;
    assert out[..] == out[..offset];
    assert Contents(buffers) == parts;
    JoinLayout(buffers, parts);
  }
}
