/**
  The message of the constraint-violation response.

  The handler walks the violation set with a `StringBuilder` and, for each
  violation, appends the message of the exception as a whole followed by
  "; ". The violation itself is never looked at, so the result is that one
  segment repeated once per violation.
 */
module ViolationMessages {
  import opened JavaLang

  /** One violation of a `javax.validation.ConstraintViolationException`;
      the handler iterates over these but reads nothing from them. */
  datatype Violation = Violation(message: string, propertyPath: string)

  const Separator: string := "; "

  /** What one loop iteration appends. */
  function Segment(exMessage: Nullable<string>): (r: string)
    ensures |r| == |AppendedText(exMessage)| + 2
  {
    AppendedText(exMessage) + Separator
  }

  /** `p` written `n` times in a row: the reference the loop is measured against. */
  function Repeat(p: string, n: nat): string
  {
    if n == 0 then "" else p + Repeat(p, n - 1)
  }

  /** The builder's contents after appending for every violation in order:
      each step extends the previous contents on the right, as `append` does. */
  function ViolationMessage(exMessage: Nullable<string>, violations: seq<Violation>): (r: string)
    ensures |r| == |violations| * (|AppendedText(exMessage)| + 2)
    decreases |violations|
  {
    if |violations| == 0 then ""
    else ViolationMessage(exMessage, violations[..|violations| - 1]) + Segment(exMessage)
  }

  /** Appending one more copy on the right is the same as one more on the left. */
  lemma {:induction false} RepeatAppend(p: string, n: nat)
    ensures Repeat(p, n + 1) == Repeat(p, n) + p
    decreases n
  {
    if n > 0 {
      RepeatAppend(p, n - 1);
      assert Repeat(p, n + 1) == p + (Repeat(p, n - 1) + p);
    }
  }

  /** The message is the segment repeated once per violation. */
  lemma {:induction false} ViolationMessageIsRepeat(exMessage: Nullable<string>, violations: seq<Violation>)
    ensures ViolationMessage(exMessage, violations) == Repeat(Segment(exMessage), |violations|)
    decreases |violations|
  {
    if |violations| > 0 {
      var n := |violations| - 1;
      ViolationMessageIsRepeat(exMessage, violations[..n]);
      RepeatAppend(Segment(exMessage), n);
    }
  }

  /** Only the number of violations matters: their own messages and paths do not
      reach the response. */
  lemma {:induction false} ViolationContentsIgnored(exMessage: Nullable<string>, vs: seq<Violation>, ws: seq<Violation>)
    requires |vs| == |ws|
    ensures ViolationMessage(exMessage, vs) == ViolationMessage(exMessage, ws)
  {
    ViolationMessageIsRepeat(exMessage, vs);
    ViolationMessageIsRepeat(exMessage, ws);
  }

  /** The `k`-th block of width `w` in `s`: skip `k` blocks, take the next
      one; the empty string when `s` runs out first. */
  function BlockAt(s: string, w: nat, k: nat): string
    decreases k
  {
    if |s| < w then ""
    else if k == 0 then s[..w]
    else BlockAt(s[w..], w, k - 1)
  }

  /** Every copy of `p` sits at its own offset: the k-th block of `|p|`
      characters of `Repeat(p, n)` is `p`. */
  lemma {:induction false} RepeatBlock(p: string, n: nat, k: nat)
    requires k < n
    ensures BlockAt(Repeat(p, n), |p|, k) == p
    decreases k
  {
    assert Repeat(p, n) == p + Repeat(p, n - 1);
    if k > 0 {
      RepeatBlock(p, n - 1, k - 1);
      assert Repeat(p, n)[|p|..] == Repeat(p, n - 1);
    }
  }

  /** All blocks at once: the message can be read block by block, each block
      standing on its own, without unfolding `Repeat`. */
  lemma {:induction false} RepeatBlocks(p: string, n: nat)
    ensures forall k: nat :: k < n ==> BlockAt(Repeat(p, n), |p|, k) == p
  {
    forall k: nat | k < n
      ensures BlockAt(Repeat(p, n), |p|, k) == p
    {
      RepeatBlock(p, n, k);
    }
  }

  lemma {:induction false} RepeatLength(p: string, n: nat)
    ensures |Repeat(p, n)| == n * |p|
    decreases n
  {
    if n > 0 {
      RepeatLength(p, n - 1);
    }
  }

  /** The `StringBuilder` loop of the handler, one append pair per violation. */
  method BuildViolationMessage(exMessage: Nullable<string>, violations: seq<Violation>) returns (built: string)
    ensures built == Repeat(Segment(exMessage), |violations|)
    ensures |built| == |violations| * (|AppendedText(exMessage)| + 2)
  {
    built := "";
    var i := 0;
    while i < |violations|
      invariant 0 <= i <= |violations|
      invariant built == ViolationMessage(exMessage, violations[..i])
    {
      built := built + AppendedText(exMessage);
      built := built + Separator;
      assert violations[..i + 1][..i] == violations[..i];
      i := i + 1;
    }
    assert violations[..i] == violations;
    ViolationMessageIsRepeat(exMessage, violations);
  }
}
