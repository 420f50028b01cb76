/**
 The liveness flags of input sections (InputSection::kill, get_priority and
 is_killed_by_icf in elf/mold.h).
 */
module InputSections {
  import opened Wrappers

  /** The priority of a section: the priority of its file, then its index within the file. */
  function Priority(file: nat, shndx: nat): nat {
    file * 0x1_0000_0000 + shndx
  }

  /** Priorities order sections lexicographically, so two different sections never tie. */
  lemma PriorityIsLexicographic(file: nat, shndx: nat, file': nat, shndx': nat)
    requires shndx < 0x1_0000_0000 && shndx' < 0x1_0000_0000
    ensures Priority(file, shndx) < Priority(file', shndx') <==>
            file < file' || (file == file' && shndx < shndx')
    ensures Priority(file, shndx) == Priority(file', shndx') <==> file == file' && shndx == shndx'
  {
    if file < file' {
      assert (file + 1) * 0x1_0000_0000 <= file' * 0x1_0000_0000;
    } else if file' < file {
      assert (file' + 1) * 0x1_0000_0000 <= file * 0x1_0000_0000;
    }
  }

  predicate KilledByIcf(i: nat, leader: Option<nat>) {
    leader.Some? && leader.value != i
  }

  /** Which sections are alive, and whether the exception records attached to them are. */
  class Liveness {
    const alive: array<bool>
    const fdesAlive: array<bool>

    ghost predicate Valid() {
      alive != fdesAlive && alive.Length == fdesAlive.Length
    }

    method Kill(i: nat)
      requires Valid() && i < alive.Length
      modifies alive, fdesAlive
      ensures alive[..] == old(alive[..])[i := false]
      ensures fdesAlive[..] == if old(alive[i]) then old(fdesAlive[..])[i := false] else old(fdesAlive[..])
    {
      var was := alive[i];
      alive[i] := false;
      if was {
        fdesAlive[i] := false;
      }
    }

    /** The sweep at the end of icf_sections. */
    method SweepFolded(leader: seq<Option<nat>>)
      requires Valid() && |leader| == alive.Length
      modifies alive, fdesAlive
      ensures forall i :: 0 <= i < alive.Length ==>
                alive[i] == (old(alive[i]) && !KilledByIcf(i, leader[i]))
      ensures forall i :: 0 <= i < alive.Length ==>
                fdesAlive[i] == (old(fdesAlive[i]) && (old(alive[i]) ==> alive[i]))
    {
      for i := 0 to alive.Length
        invariant forall k :: 0 <= k < i ==> alive[k] == (old(alive[k]) && !KilledByIcf(k, leader[k]))
        invariant forall k :: 0 <= k < i ==>
                    fdesAlive[k] == (old(fdesAlive[k]) && (old(alive[k]) ==> alive[k]))
        invariant forall k :: i <= k < alive.Length ==>
                    alive[k] == old(alive[k]) && fdesAlive[k] == old(fdesAlive[k])
      {
        if alive[i] && KilledByIcf(i, leader[i]) {
          ghost var a, f := alive[..], fdesAlive[..];
          Kill(i);
          assert forall k :: 0 <= k < alive.Length && k != i ==>
              alive[..][k] == a[k] && fdesAlive[..][k] == f[k];
          assert alive[..][i] == false && fdesAlive[..][i] == false;
        }
      }
    }
  }
}
