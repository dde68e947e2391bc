/**
 * How the `*` width and precision of an integer conversion are read (kernel/stdc/stdio/vsnprintf.c):
 * the corrected printer fills in the `*`s before it reads the number, the printer as written reads
 * the number first.  Both are defined in the Vsnprintf module; this one relates them.
 */
module VsnprintfOperands {
  import opened Common
  import opened Vsnprintf

  /**
   * Filling in the `*`s reads only the Stars(spec) arguments from k on, changes nothing but the
   * width and precision, and puts a `*` value that fits its bit-field there unchanged, the width's
   * argument first.
   */
  lemma ResolveReadsStars(spec: Spec, args: seq<Arg>, other: seq<Arg>, k: nat)
    requires forall j :: k <= j < k + Stars(spec) ==> NumAt(args, j) == NumAt(other, j)
    ensures Resolve(spec, args, k) == Resolve(spec, other, k)
    ensures Stars(spec) == 0 ==> Resolve(spec, args, k) == spec
    ensures Resolve(spec, args, k).kind == spec.kind && Resolve(spec, args, k).flags == spec.flags
    ensures Resolve(spec, args, k).base == spec.base
    ensures spec.width == FROM_ARG && -0x80_0000 <= NumAt(args, k) < 0x80_0000 ==>
      Resolve(spec, args, k).width == NumAt(args, k)
    ensures spec.width == FROM_ARG && spec.precision == FROM_ARG && -0x8000 <= NumAt(args, k + 1) < 0x8000 ==>
      Resolve(spec, args, k).precision == NumAt(args, k + 1)
    ensures spec.width != FROM_ARG && spec.precision == FROM_ARG && -0x8000 <= NumAt(args, k) < 0x8000 ==>
      Resolve(spec, args, k).precision == NumAt(args, k)
  {
    if spec.width == FROM_ARG {
      assert NumAt(args, k) == NumAt(other, k);
    }
    if spec.precision == FROM_ARG {
      var j := k + (if spec.width == FROM_ARG then 1 else 0);
      assert NumAt(args, j) == NumAt(other, j);
    }
  }

  /** The arguments with the one at k moved behind the n that follow it. */
  function BehindStars(args: seq<Arg>, k: nat, n: nat): (r: seq<Arg>)
    requires k + 1 + n <= |args|
    ensures |r| == |args|
  {
    args[..k] + args[k + 1..k + 1 + n] + [args[k]] + args[k + 1 + n..]
  }

  /**
   * The written order is the C order applied to arguments whose number stands in front of the `*`
   * values: both consume the same arguments, and without a `*` they agree.
   */
  lemma OperandsOrder(spec: Spec, args: seq<Arg>, k: nat)
    requires IsInteger(spec.kind) && k + 1 + Stars(spec) <= |args|
    ensures IntOperandsAsWritten(spec, args, k) == IntOperands(spec, BehindStars(args, k, Stars(spec)), k)
    ensures Stars(spec) == 0 ==> IntOperandsAsWritten(spec, args, k) == IntOperands(spec, args, k)
  {
    var n := Stars(spec);
    var moved := BehindStars(args, k, n);
    assert moved[k + n] == args[k];
    assert Resolve(spec, args, k + 1) == Resolve(spec, moved, k) by {
      if spec.width == FROM_ARG {
        assert moved[k] == args[k + 1];
      }
      if spec.precision == FROM_ARG {
        var j := if spec.width == FROM_ARG then 1 else 0;
        assert moved[k + j] == args[k + 1 + j];
      }
    }
  }

}
