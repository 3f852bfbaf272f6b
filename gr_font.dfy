/**
 * The built-in font of gr_drawer.c is stored run-length coded: each byte `d` of the run data
 * stands for `d & 0x7f` pixels, all 0xff when `d & 0x80` is set and all 0 otherwise, and a
 * zero byte ends the data. `init` decodes it into the glyph texture.
 */
module GrFont {
  import opened Common

  /** `data & 0x7f`: how many pixels a run byte stands for. */
  function RunLength(d: Byte): nat
  {
    d as nat % 128
  }

  /** The pixel value of a run: 0xff when `data & 0x80` is set, else 0. */
  function RunValue(d: Byte): Byte
  {
    if d >= 128 then 255 else 0
  }

  /** `n` copies of `v`. */
  function Copies(v: Byte, n: nat): (s: seq<Byte>)
    ensures |s| == n
  {
    seq(n, _ => v)
  }

  /** The pixels one run byte expands to. */
  function Run(d: Byte): (r: seq<Byte>)
    ensures |r| == RunLength(d)
  {
    Copies(RunValue(d), RunLength(d))
  }

  /** Total number of pixels the runs before the first zero byte stand for. */
  function RunsTotal(runs: seq<Byte>): nat
  {
    if |runs| == 0 || runs[0] == 0 then 0 else RunLength(runs[0]) + RunsTotal(runs[1..])
  }

  /** A bitmap of the kind the font holds: every pixel fully on or fully off. */
  predicate OnOff(bits: seq<Byte>)
  {
    forall k :: 0 <= k < |bits| ==> bits[k] == 0 || bits[k] == 255
  }

  /**
   * The decoded texture: the runs before the first zero byte, expanded and concatenated. Its
   * length is the sum of their run lengths.
   */
  function Decode(runs: seq<Byte>): (bits: seq<Byte>)
    ensures |bits| == RunsTotal(runs)
  {
    if |runs| == 0 || runs[0] == 0 then [] else Run(runs[0]) + Decode(runs[1..])
  }

  /** Every decoded pixel is fully on or fully off. */
  lemma {:induction false} DecodeOnOff(runs: seq<Byte>)
    ensures OnOff(Decode(runs))
  {
    if |runs| > 0 && runs[0] != 0 {
      DecodeOnOff(runs[1..]);
      var a, b := Run(runs[0]), Decode(runs[1..]);
      forall k | 0 <= k < |a + b|
        ensures (a + b)[k] == 0 || (a + b)[k] == 255
      {
        if k >= |a| {
          assert (a + b)[k] == b[k - |a|];
        }
      }
    }
  }

  /** Decoding stops at the first zero byte: whatever follows it is never read. */
  lemma {:induction false} DecodeStopsAtZero(runs: seq<Byte>, rest: seq<Byte>)
    requires 0 !in runs
    ensures Decode(runs + [0] + rest) == Decode(runs)
    ensures RunsTotal(runs + [0] + rest) == RunsTotal(runs)
  {
    if |runs| > 0 {
      assert (runs + [0] + rest)[1..] == runs[1..] + [0] + rest;
      DecodeStopsAtZero(runs[1..], rest);
    }
  }

  /** The number of leading pixels equal to `v`, at most `limit`. */
  function LeadingRun(bits: seq<Byte>, v: Byte, limit: nat): (n: nat)
    ensures n <= limit && n <= |bits|
    ensures forall k :: 0 <= k < n ==> bits[k] == v
    ensures |bits| > 0 && bits[0] == v && limit > 0 ==> n > 0
  {
    if |bits| == 0 || bits[0] != v || limit == 0 then 0 else 1 + LeadingRun(bits[1..], v, limit - 1)
  }

  /** A run-length coder for on/off bitmaps: longest runs of at most 127 pixels, no zero byte. */
  function Encode(bits: seq<Byte>): (runs: seq<Byte>)
    requires OnOff(bits)
    ensures 0 !in runs
    decreases |bits|
  {
    if |bits| == 0 then []
    else
      var n := LeadingRun(bits, bits[0], 127);
      [((if bits[0] == 255 then 128 else 0) + n) as Byte] + Encode(bits[n..])
  }

  /** Decoding undoes encoding. */
  lemma {:induction false} DecodeEncode(bits: seq<Byte>)
    requires OnOff(bits)
    ensures Decode(Encode(bits)) == bits
    decreases |bits|
  {
    if |bits| > 0 {
      var n := EncodeFirstRun(bits);
      DecodeEncode(bits[n..]);
      SplitAt(bits, n);
    }
  }

  lemma SplitAt(bits: seq<Byte>, n: nat)
    requires n <= |bits|
    ensures bits[..n] + bits[n..] == bits
  {
  }

  /** The first byte of the coding stands for the leading run of the bitmap. */
  lemma EncodeFirstRun(bits: seq<Byte>) returns (n: nat)
    requires OnOff(bits) && |bits| > 0
    ensures 0 < n <= |bits| && OnOff(bits[n..])
    ensures Decode(Encode(bits)) == bits[..n] + Decode(Encode(bits[n..]))
  {
    n := LeadingRun(bits, bits[0], 127);
    var d: Byte := ((if bits[0] == 255 then 128 else 0) + n) as Byte;
    RunByte(bits[0], n);
    assert Run(d) == bits[..n];
    var rest := Encode(bits[n..]);
    assert Encode(bits) == [d] + rest;
    assert ([d] + rest)[1..] == rest;
  }

  /** The byte the coder writes for `n` pixels of `v` is nonzero and stands for exactly that run. */
  lemma RunByte(v: Byte, n: nat)
    requires (v == 0 || v == 255) && 0 < n <= 127
    ensures var d := ((if v == 255 then 128 else 0) + n) as Byte;
      d != 0 && RunLength(d) == n && RunValue(d) == v
  {
  }

  /** A bitmap encoded and zero-terminated, as the font table is stored, decodes to itself. */
  lemma EncodedFontDecodes(bits: seq<Byte>)
    requires OnOff(bits)
    ensures Decode(Encode(bits) + [0]) == bits
  {
    DecodeStopsAtZero(Encode(bits), []);
    assert Encode(bits) + [0] + [] == Encode(bits) + [0];
    DecodeEncode(bits);
  }

  /** `memset(bits + start, v, n)`: the `n` bytes from `start` become `v`, the rest stay. */
  method Memset(bits: array<Byte>, start: nat, v: Byte, n: nat)
    requires start + n <= bits.Length
    modifies bits
    ensures bits[..] == old(bits[..start]) + Copies(v, n) + old(bits[start + n..])
  {
    var k := 0;
    while k < n
      invariant 0 <= k <= n
      invariant bits[..start] == old(bits[..start])
      invariant bits[start..start + k] == Copies(v, k)
      invariant bits[start + k..] == old(bits[start + k..])
    {
      bits[start + k] := v;
      k := k + 1;
    }
    assert bits[..] == bits[..start] + bits[start..start + n] + bits[start + n..];
  }

  /** One step of the decode loop: a nonzero byte contributes its run ahead of the rest. */
  lemma DecodeStep(runs: seq<Byte>, i: nat)
    requires i < |runs| && runs[i] != 0
    ensures Decode(runs[i..]) == Run(runs[i]) + Decode(runs[i + 1..])
  {
    assert runs[i..][1..] == runs[i + 1..];
  }

  /**
   * One run written by `memset`: the buffer `acc + orig[out..]` with `r` written at `out`
   * is `acc + r` followed by the original tail, and `acc + r` has decoded one more run.
   */
  lemma Splice(acc: seq<Byte>, orig: seq<Byte>, r: seq<Byte>, rest: seq<Byte>, whole: seq<Byte>)
    requires |acc| + |r| <= |orig|
    requires acc + (r + rest) == whole
    ensures var buf := acc + orig[|acc|..];
      buf[..|acc|] + r + buf[|acc| + |r|..] == (acc + r) + orig[|acc| + |r|..]
    ensures (acc + r) + rest == whole
  {
    var buf := acc + orig[|acc|..];
    assert buf[..|acc|] == acc;
    assert buf[|acc| + |r|..] == orig[|acc| + |r|..];
  }

  /**
   * The body of the decode loop: `memset` the run of `data` at `out`, in a buffer holding the
   * runs decoded so far, `acc`, ahead of the original contents.
   */
  method WriteRun(bits: array<Byte>, out: nat, data: Byte, ghost acc: seq<Byte>, ghost orig: seq<Byte>,
                  ghost rest: seq<Byte>, ghost whole: seq<Byte>)
    requires out == |acc| <= |orig| == bits.Length && bits[..] == acc + orig[out..]
    requires acc + (Run(data) + rest) == whole && out + RunLength(data) <= |whole| <= bits.Length
    modifies bits
    ensures bits[..] == (acc + Run(data)) + orig[out + RunLength(data)..]
    ensures (acc + Run(data)) + rest == whole
  {
    Splice(acc, orig, Run(data), rest, whole);
    Memset(bits, out, RunValue(data), RunLength(data));
  }

  /**
   * The decode loop of `init`: `while ((data = *in++))` writes each run with `memset` and
   * advances the output pointer. The run data must hold a terminating zero and the texture
   * must have room for every run; the texture is otherwise left as it was.
   */
  method DecodeRuns(bits: array<Byte>, runs: seq<Byte>)
    requires 0 in runs
    requires RunsTotal(runs) <= bits.Length
    modifies bits
    ensures bits[..RunsTotal(runs)] == Decode(runs)
    ensures bits[RunsTotal(runs)..] == old(bits[RunsTotal(runs)..])
  {
    ghost var end :| 0 <= end < |runs| && runs[end] == 0;
    ghost var orig := bits[..];
    ghost var acc: seq<Byte> := [];
    var i := 0;
    var out: nat := 0;
    while runs[i] != 0
      invariant 0 <= i <= end && out == |acc|
      invariant acc + Decode(runs[i..]) == Decode(runs)
      invariant bits[..] == acc + orig[out..]
      decreases |runs| - i
    {
      var data := runs[i];
      DecodeStep(runs, i);
      WriteRun(bits, out, data, acc, orig, Decode(runs[i + 1..]), Decode(runs));
      acc := acc + Run(data);
      i := i + 1;
      out := out + RunLength(data);
    }
    DecodeStop(runs, i);
    SplitAt(bits[..], out);
  }

  /** At a zero byte the remaining runs decode to nothing. */
  lemma DecodeStop(runs: seq<Byte>, i: nat)
    requires i < |runs| && runs[i] == 0
    ensures Decode(runs[i..]) == [] && RunsTotal(runs[i..]) == 0
  {
  }
}
