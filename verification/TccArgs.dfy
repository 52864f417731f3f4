/** The argument rewriting in main of apps/tcc/tcc.c: "-static" goes in front unless the call only
    compiles, assembles or preprocesses. */
module TccArgs {

  // A slot of newargv; argv uses Null and Arg only.
  datatype Slot = Unset | Null | Arg(text: string)

  const CAPACITY: nat := 32

  predicate IsMode(a: Slot) {
    a == Arg("-c") || a == Arg("-S") || a == Arg("-E")
  }

  // Some argument after the program name asks for -c, -S or -E.
  ghost predicate HasMode(args: seq<Slot>) {
    exists i :: 1 <= i < |args| && args[i] in {Arg("-c"), Arg("-S"), Arg("-E")}
  }

  // The vector that the wrapper is after.
  ghost function Wanted(args: seq<Slot>): (r: seq<Slot>)
    requires args != []
    ensures |r| == |args| + if HasMode(args) then 0 else 1
  {
    [args[0]] + (if HasMode(args) then [] else [Arg("-static")]) + args[1..]
  }

  // The arguments fit in newargv together with the final NULL.
  ghost predicate AllFit(args: seq<Slot>) {
    |args| <= if HasMode(args) then 31 else 30
  }

  method NeedStatic(args: seq<Slot>) returns (need: bool)
    requires args != []
    ensures need <==> !HasMode(args)
    ensures need <==> forall i :: 1 <= i < |args| ==>
                        args[i] != Arg("-c") && args[i] != Arg("-S") && args[i] != Arg("-E")
  {
    need := true;
    for i := 1 to |args|
      invariant need
      invariant forall j :: 1 <= j < i ==> !IsMode(args[j])
    {
      if IsMode(args[i]) {
        need := false;
        break;
      }
    }
  }

  // for (i = 1; i <= cap; i++) newargv[i + shift] = argv[i]
  method CopyArgs(argv: seq<Slot>, newargv: array<Slot>, cap: nat, shift: nat)
    requires cap < |argv| && cap + shift < newargv.Length
    modifies newargv
    ensures forall k :: 0 <= k < newargv.Length ==>
              newargv[k] == if 1 + shift <= k <= cap + shift then argv[k - shift] else old(newargv[k])
  {
    for i := 1 to cap + 1
      invariant forall k :: 0 <= k < newargv.Length ==>
                  newargv[k] == if 1 + shift <= k < i + shift then argv[k - shift] else old(newargv[k])
    {
      newargv[i + shift] := argv[i];
    }
  }

  // args are argv[0] .. argv[argc - 1]; argv ends with NULL. The new vector is the longest prefix
  // of the wanted one that leaves room for NULL, then NULL; nothing below the NULL is left unset.
  method Rewrite(args: seq<Slot>) returns (nargc: nat, newargv: array<Slot>)
    requires 1 <= |args| < 0x7FFF_FFFF
    requires Unset !in args
    ensures newargv.Length == CAPACITY == 32 && fresh(newargv)
    ensures nargc < CAPACITY && newargv[nargc] == Null
    ensures nargc <= |Wanted(args)| && newargv[..nargc] == Wanted(args)[..nargc]
    ensures nargc == |Wanted(args)| <==> AllFit(args)
    ensures !AllFit(args) ==> nargc == CAPACITY - 1
    ensures Unset !in newargv[..nargc]
    ensures newargv[0] == args[0] && (HasMode(args) || newargv[1] == Arg("-static"))
  {
    var argc, argv := |args|, args + [Null];
    var need := NeedStatic(args);
    newargv := new Slot[CAPACITY](_ => Unset);
    var cap := if argc < 30 then argc else 30;
    nargc := argc + if need then 1 else 0;
    if nargc > 31 { nargc := 31; }
    newargv[0] := argv[0];
    if need {
      newargv[1] := Arg("-static");
      CopyArgs(argv, newargv, cap, 1);
    } else {
      CopyArgs(argv, newargv, cap, 0);
    }
    newargv[nargc] := Null;
    forall k | 0 <= k < nargc
      ensures newargv[k] == Wanted(args)[k] && newargv[k] != Unset
    {
      WantedAt(args, k);
    }
  }

  lemma WantedAt(args: seq<Slot>, k: nat)
    requires args != [] && k < |Wanted(args)|
    ensures Wanted(args)[k] ==
            if k == 0 then args[0]
            else if HasMode(args) then args[k]
            else if k == 1 then Arg("-static")
            else args[k - 1]
  {
  }
}
