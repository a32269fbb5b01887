/**
  `next_version` of `calculate-rarity.py`: the version number for a new output
  file is one more than the largest version already present in the directory,
  so a run never overwrites an earlier output. The directory listing and the
  file-name pattern are outside the model; its input is the sequence of
  version numbers parsed from the matching file names, in listing order.
*/
module Versioning {

  /** The largest version in `vs`, or 0 (the script's starting maximum) when there is none. */
  function MaxVersion(vs: seq<nat>): (m: nat)
    ensures forall i :: 0 <= i < |vs| ==> vs[i] <= m
    ensures m == 0 || m in vs
  {
    if vs == [] then 0
    else
      var rest := MaxVersion(vs[..|vs| - 1]);
      if vs[|vs| - 1] > rest then vs[|vs| - 1] else rest
  }

  /** The scan over the parsed versions: keeps the running maximum and returns it plus one. */
  method NextVersion(vs: seq<nat>) returns (next: nat)
    ensures next == MaxVersion(vs) + 1
    ensures forall i :: 0 <= i < |vs| ==> vs[i] < next
    ensures next == 1 || next - 1 in vs
    ensures |vs| == 0 ==> next == 1
  {
    var maxVer := 0;
    var i := 0;
    while i < |vs|
      invariant 0 <= i <= |vs|
      invariant maxVer == MaxVersion(vs[..i])
    {
      assert vs[..i + 1][..i] == vs[..i];
      if vs[i] > maxVer {
        maxVer := vs[i];
      }
      i := i + 1;
    }
    assert vs[..i] == vs;
    next := maxVer + 1;
  }

  /** The maximum does not depend on the order in which the directory lists the files. */
  lemma {:induction false} MaxVersionOrderFree(vs: seq<nat>, ws: seq<nat>)
    requires multiset(vs) == multiset(ws)
    ensures MaxVersion(vs) == MaxVersion(ws)
  {
    var a, b := MaxVersion(vs), MaxVersion(ws);
    if a != 0 {
      assert a in multiset(ws);
    }
    if b != 0 {
      assert b in multiset(vs);
    }
    assert forall x :: x in multiset(ws) ==> x in ws;
    assert forall x :: x in multiset(vs) ==> x in vs;
  }

  /**
    Writing the file with the new version makes the next run pick the version
    after it: successive runs number their outputs 1 more each time.
  */
  lemma {:induction false} NextAfterWrite(vs: seq<nat>)
    ensures MaxVersion(vs + [MaxVersion(vs) + 1]) == MaxVersion(vs) + 1
  {
    var ws := vs + [MaxVersion(vs) + 1];
    assert ws[..|ws| - 1] == vs;
  }
}
