/** Backend selection (src/parse.rs): which scan implementation a build
    uses, decided once from the target, and the dispatch to it.  Whatever
    the choice, the scans equal the scalar contract, so the parser's output
    does not depend on the target. */
module Select {
  import opened Scan
  import Generic
  import Swar64
  import Swar32
  import Avx2

  datatype Backend =
    | ScalarBackend
    | Avx2Backend
    | Sse2Backend
    | Swar64Backend
    | Swar32Backend
  {
    /** The backends whose source is part of this model. */
    predicate Modelled() {
      !Sse2Backend?
    }
  }

  /** The properties of the build target the `cfg_if` chain inspects. */
  datatype Target = Target(
    littleEndian: bool,
    x86: bool,
    avx2: bool,
    sse2: bool,
    pointerWidth: nat)

  /** The `cfg_if` chain: the first matching arm wins.  The word-parallel
      and vector backends are only chosen where their bit tricks are sound:
      on little-endian targets, with the instruction set or word width they
      assume. */
  function SelectBackend(t: Target): (b: Backend)
    ensures b != ScalarBackend ==> t.littleEndian
    ensures b == Avx2Backend ==> t.x86 && t.avx2
    ensures b == Sse2Backend ==> t.x86 && t.sse2
    ensures b == Swar64Backend ==> t.pointerWidth == 64
    ensures b == Swar32Backend ==> t.pointerWidth == 32
    ensures b == Avx2Backend <==> t.littleEndian && t.x86 && t.avx2
    ensures b == Sse2Backend <==> t.littleEndian && t.x86 && !t.avx2 && t.sse2
    ensures b == Swar64Backend <==>
              t.littleEndian && !(t.x86 && (t.avx2 || t.sse2)) && t.pointerWidth == 64
    ensures b == Swar32Backend <==>
              t.littleEndian && !(t.x86 && (t.avx2 || t.sse2)) && t.pointerWidth == 32
    ensures b == ScalarBackend <==>
              !t.littleEndian || (!(t.x86 && (t.avx2 || t.sse2)) && t.pointerWidth != 64 && t.pointerWidth != 32)
  {
    if !t.littleEndian then ScalarBackend
    else if t.x86 && t.avx2 then Avx2Backend
    else if t.x86 && t.sse2 then Sse2Backend
    else if t.pointerWidth == 64 then Swar64Backend
    else if t.pointerWidth == 32 then Swar32Backend
    else ScalarBackend
  }

  /** `parse::find_nl` as re-exported for the chosen backend. */
  method FindNl(b: Backend, s: seq<bv8>) returns (r: nat)
    requires b.Modelled()
    ensures r == FirstNewline(s)
  {
    match b
    case ScalarBackend => r := Generic.FindNl(s);
    case Avx2Backend => r := Avx2.FindNl(s);
    case Swar64Backend => r := Swar64.FindNl(s);
    case Swar32Backend => r := Swar32.FindNl(s);
  }

  /** `parse::find_nl_chr` as re-exported for the chosen backend. */
  method FindNlChr(b: Backend, s: seq<bv8>, chr: bv8) returns (r: nat)
    requires b.Modelled()
    ensures r == FirstNewlineOr(s, chr)
  {
    match b
    case ScalarBackend => r := Generic.FindNlChr(s, chr);
    case Avx2Backend => r := Avx2.FindNlChr(s, chr);
    case Swar64Backend => r := Swar64.FindNlChr(s, chr);
    case Swar32Backend => r := Swar32.FindNlChr(s, chr);
  }

  /** One step of the cross-backend test: every modelled backend, and the
      scalar reference, finds the planted `\n` of the test buffer with both
      scans (`=` as the extra byte of `find_nl_chr`). */
  method TestParseStep(i: nat) returns (found: seq<nat>)
    requires i < 254
    ensures |found| == 8
    ensures forall k :: 0 <= k < |found| ==> found[k] == i
  {
    var buffer := TestBuffer(i);
    TestBufferScan(i);
    var a := Generic.FindNl(buffer);
    var b := Generic.FindNlChr(buffer, 0x3D);
    var c := Avx2.FindNl(buffer);
    var d := Avx2.FindNlChr(buffer, 0x3D);
    var e := Swar64.FindNl(buffer);
    var f := Swar64.FindNlChr(buffer, 0x3D);
    var g := Swar32.FindNl(buffer);
    var h := Swar32.FindNlChr(buffer, 0x3D);
    found := [a, b, c, d, e, f, g, h];
  }
}
