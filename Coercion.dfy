/**
 * Boolean, inverted-boolean, sign and clip coercions (wrap_vDSP_toBool,
 * wrap_vDSP_toIBool, wrap_vDSP_sign, wrap_vDSP_clip and the *_by_vDSP
 * drivers around them). Each wrapper is a chain of element-wise vDSP/vForce
 * passes over the destination buffer; a pass is modelled by `Pass`/`Pass2`
 * applied to the element meaning of the Accelerate kernel.
 */
module Coercion {
  import opened MfCore

  /** vDSP_vminmg with a scalar second operand (stride 0): min(|a|, |b|). */
  function MinMag(a: real, b: real): (r: real)
    ensures r == Abs(a) || r == Abs(b)
    ensures 0.0 <= r <= Abs(a) && r <= Abs(b)
  {
    if Abs(a) <= Abs(b) then Abs(a) else Abs(b)
  }

  /**
   * vDSP_viclip: values at or outside [lo, hi] pass through; values strictly
   * inside are pushed to lo when negative and to hi otherwise.
   */
  function InvClip(a: real, lo: real, hi: real): (r: real)
    ensures (a <= lo || a >= hi) ==> r == a
    ensures lo < a < hi ==> r == (if a < 0.0 then lo else hi)
  {
    if a <= lo || a >= hi then a else if a < 0.0 then lo else hi
  }

  /** vForce copysign: the magnitude of m with the sign of s (no signed zero on reals). */
  function CopySign(m: real, s: real): (r: real)
    ensures Abs(r) == Abs(m)
    ensures s < 0.0 ==> r <= 0.0
    ensures s >= 0.0 ==> r >= 0.0
  {
    if s < 0.0 then -Abs(m) else Abs(m)
  }

  /** vDSP_vclip: below lo becomes lo, otherwise above hi becomes hi. */
  function Clip(a: real, lo: real, hi: real): (r: real)
    ensures r == a || r == lo || r == hi
    ensures lo <= hi ==> lo <= r <= hi
    ensures lo <= a <= hi ==> r == a
  {
    if a < lo then lo else if a > hi then hi else a
  }

  /** The element meaning of wrap_vDSP_toBool: vminmg against 1, then viclip to (0, 1). */
  function BoolValue(x: real): (r: real)
    ensures r == 0.0 || r == 1.0
    ensures r == 1.0 <==> x != 0.0
  {
    InvClip(MinMag(x, 1.0), 0.0, 1.0)
  }

  /** wrap_vDSP_toIBool: the boolean value, minus one, then its absolute value. */
  function IBoolValue(x: real): (r: real)
    ensures r == 0.0 || r == 1.0
    ensures r == 1.0 <==> x == 0.0
  {
    Abs(BoolValue(x) + -1.0)
  }

  /** wrap_vDSP_sign: the boolean value with the sign of the source copied onto it. */
  function SignValue(x: real): (r: real)
    ensures x > 0.0 ==> r == 1.0
    ensures x < 0.0 ==> r == -1.0
    ensures x == 0.0 ==> r == 0.0
  {
    CopySign(BoolValue(x), x)
  }

  /** The inverted boolean is the complement of the boolean. */
  lemma IBoolComplement(x: real)
    ensures IBoolValue(x) == 1.0 - BoolValue(x)
  {
  }

  /** The sign times the magnitude gives back the value; the boolean is the sign's magnitude. */
  lemma SignTimesAbs(x: real)
    ensures SignValue(x) * Abs(x) == x
    ensures Abs(SignValue(x)) == BoolValue(x)
  {
  }

  /** Clipping to a proper interval is idempotent and monotone. */
  lemma ClipIdempotentMonotone(a: real, b: real, lo: real, hi: real)
    requires lo <= hi
    ensures Clip(Clip(a, lo, hi), lo, hi) == Clip(a, lo, hi)
    ensures a <= b ==> Clip(a, lo, hi) <= Clip(b, lo, hi)
  {
  }

  /**
   * One element-wise Accelerate pass of length n from a into d (a may be d
   * itself, as in the in-place passes): d[i] becomes f of the old a[i] and
   * the rest of d is left alone.
   */
  method Pass(a: array<real>, d: array<real>, n: nat, f: real -> real)
    requires n <= a.Length && n <= d.Length
    modifies d
    ensures forall i :: 0 <= i < n ==> d[i] == f(old(a[i]))
    ensures forall i :: n <= i < d.Length ==> d[i] == old(d[i])
  {
    var i := 0;
    while i < n
      invariant 0 <= i <= n
      invariant forall j :: 0 <= j < i ==> d[j] == f(old(a[j]))
      invariant forall j :: i <= j < a.Length ==> a[j] == old(a[j])
      invariant forall j :: i <= j < d.Length ==> d[j] == old(d[j])
    {
      d[i] := f(a[i]);
      i := i + 1;
    }
  }

  /** A two-operand element-wise pass (vForce copysign): d[i] becomes f(old a[i], old b[i]). */
  method Pass2(a: array<real>, b: array<real>, d: array<real>, n: nat, f: (real, real) -> real)
    requires n <= a.Length && n <= b.Length && n <= d.Length
    modifies d
    ensures forall i :: 0 <= i < n ==> d[i] == f(old(a[i]), old(b[i]))
    ensures forall i :: n <= i < d.Length ==> d[i] == old(d[i])
  {
    var i := 0;
    while i < n
      invariant 0 <= i <= n
      invariant forall j :: 0 <= j < i ==> d[j] == f(old(a[j]), old(b[j]))
      invariant forall j :: i <= j < a.Length ==> a[j] == old(a[j])
      invariant forall j :: i <= j < b.Length ==> b[j] == old(b[j])
      invariant forall j :: i <= j < d.Length ==> d[j] == old(d[j])
    {
      d[i] := f(a[i], b[i]);
      i := i + 1;
    }
  }

  /** wrap_vDSP_toBool: each of the first size elements becomes 0 when zero and 1 otherwise. */
  method WrapToBool(size: nat, src: array<real>, dst: array<real>)
    requires size <= src.Length && size <= dst.Length
    modifies dst
    ensures forall i :: 0 <= i < size ==> dst[i] == (if old(src[i]) == 0.0 then 0.0 else 1.0)
    ensures forall i :: size <= i < dst.Length ==> dst[i] == old(dst[i])
  {
    Pass(src, dst, size, x => MinMag(x, 1.0));
    Pass(dst, dst, size, v => InvClip(v, 0.0, 1.0));
    forall i | 0 <= i < size ensures dst[i] == BoolValue(old(src[i])) {
    }
  }

  /** wrap_vDSP_toIBool: each of the first size elements becomes 1 when zero and 0 otherwise. */
  method WrapToIBool(size: nat, src: array<real>, dst: array<real>)
    requires size <= src.Length && size <= dst.Length
    modifies dst
    ensures forall i :: 0 <= i < size ==> dst[i] == (if old(src[i]) == 0.0 then 1.0 else 0.0)
    ensures forall i :: size <= i < dst.Length ==> dst[i] == old(dst[i])
  {
    Pass(src, dst, size, x => MinMag(x, 1.0));
    Pass(dst, dst, size, v => InvClip(v, 0.0, 1.0));
    Pass(dst, dst, size, v => v + -1.0);
    Pass(dst, dst, size, Abs);
    forall i | 0 <= i < size ensures dst[i] == IBoolValue(old(src[i])) {
    }
  }

  /**
   * wrap_vDSP_sign: +1, -1 or 0 by the sign of each source element. The
   * last pass reads the signs from src, so src must not be dst.
   */
  method WrapSign(size: nat, src: array<real>, dst: array<real>)
    requires size <= src.Length && size <= dst.Length
    requires src != dst
    modifies dst
    ensures forall i :: 0 <= i < size ==>
      dst[i] == (if old(src[i]) > 0.0 then 1.0 else if old(src[i]) < 0.0 then -1.0 else 0.0)
    ensures forall i :: size <= i < dst.Length ==> dst[i] == old(dst[i])
  {
    Pass(src, dst, size, x => MinMag(x, 1.0));
    Pass(dst, dst, size, v => InvClip(v, 0.0, 1.0));
    Pass2(dst, src, dst, size, CopySign);
    forall i | 0 <= i < size ensures dst[i] == SignValue(old(src[i])) {
    }
  }

  /** The stored buffer of an mfarray as a fresh vDSP source array. */
  method Load(data: seq<real>) returns (a: array<real>)
    ensures a[..] == data
  {
    a := new real[|data|](i requires 0 <= i < |data| => data[i]);
  }

  /** toBool_by_vDSP: a new buffer of 0/1 values with the source's shape and strides. */
  method ToBoolByVDSP(m: MfArray) returns (r: MfArray)
    ensures r.shape == m.shape && r.strides == m.strides
    ensures |r.data| == |m.data|
    ensures forall i :: 0 <= i < |r.data| ==> r.data[i] == (if m.data[i] == 0.0 then 0.0 else 1.0)
  {
    var src := Load(m.data);
    var dst := new real[|m.data|];
    WrapToBool(|m.data|, src, dst);
    r := MfArray(dst[..], m.shape, m.strides);
  }

  /** toIBool_by_vDSP: a new buffer of 1 where the source is zero and 0 elsewhere. */
  method ToIBoolByVDSP(m: MfArray) returns (r: MfArray)
    ensures r.shape == m.shape && r.strides == m.strides
    ensures |r.data| == |m.data|
    ensures forall i :: 0 <= i < |r.data| ==> r.data[i] == (if m.data[i] == 0.0 then 1.0 else 0.0)
  {
    var src := Load(m.data);
    var dst := new real[|m.data|];
    WrapToIBool(|m.data|, src, dst);
    r := MfArray(dst[..], m.shape, m.strides);
  }

  /** sign_by_vDSP: a new buffer holding the sign of each stored element. */
  method SignByVDSP(m: MfArray) returns (r: MfArray)
    ensures r.shape == m.shape && r.strides == m.strides
    ensures |r.data| == |m.data|
    ensures forall i :: 0 <= i < |r.data| ==>
      r.data[i] == (if m.data[i] > 0.0 then 1.0 else if m.data[i] < 0.0 then -1.0 else 0.0)
  {
    var src := Load(m.data);
    var dst := new real[|m.data|];
    WrapSign(|m.data|, src, dst);
    r := MfArray(dst[..], m.shape, m.strides);
  }

  /**
   * clip_by_vDSP: a new buffer with every stored element clipped to
   * [minval, maxval], keeping the source's shape and strides.
   */
  method ClipByVDSP(m: MfArray, minval: real, maxval: real) returns (r: MfArray)
    ensures r.shape == m.shape && r.strides == m.strides
    ensures |r.data| == |m.data|
    ensures forall i :: 0 <= i < |r.data| ==> r.data[i] == Clip(m.data[i], minval, maxval)
    ensures minval <= maxval ==> forall i :: 0 <= i < |r.data| ==>
      && minval <= r.data[i] <= maxval
      && (minval <= m.data[i] <= maxval ==> r.data[i] == m.data[i])
  {
    var src := Load(m.data);
    var dst := new real[|m.data|];
    Pass(src, dst, |m.data|, x => Clip(x, minval, maxval));
    r := MfArray(dst[..], m.shape, m.strides);
  }
}
