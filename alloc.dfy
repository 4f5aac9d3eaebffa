/** The run-scoped identifier maps of the disk remapper: image_group_id_dict,
    filled first-seen-wins, and image_id_dict, old image id to new. */
module Alloc {

  /** image_group_id_dict after disks whose old group ids are og were processed
      in order, pr[k] being the group id freshly generated for disk k. */
  function GroupMap(og: seq<string>, pr: seq<string>): map<string, string>
    requires |og| == |pr|
  {
    if og == [] then map[]
    else
      var n := |og| - 1;
      var m := GroupMap(og[..n], pr[..n]);
      if og[n] in m then m else m[og[n] := pr[n]]
  }

  /** The first disk, in processing order, that had old group g. */
  function FirstWith(og: seq<string>, g: string): (k: nat)
    requires g in og
    ensures k < |og| && og[k] == g
    ensures forall j :: 0 <= j < k ==> og[j] != g
  {
    if og[0] == g then 0 else 1 + FirstWith(og[1..], g)
  }

  /** Every old group seen is a key, nothing else is, and its value is the id
      generated for the first disk of that group. */
  lemma {:induction false} GroupMapFirstSeen(og: seq<string>, pr: seq<string>)
    requires |og| == |pr|
    ensures forall g :: g in GroupMap(og, pr) <==> g in og
    ensures forall g :: g in og ==> GroupMap(og, pr)[g] == pr[FirstWith(og, g)]
  {
    if og != [] {
      var n := |og| - 1;
      GroupMapFirstSeen(og[..n], pr[..n]);
      assert og == og[..n] + [og[n]];
      forall g | g in og ensures GroupMap(og, pr)[g] == pr[FirstWith(og, g)] {
        if g in og[..n] {
          FirstWithPrefix(og, n, g);
        } else {
          assert g == og[n];
          assert g !in og[..n];
        }
      }
    }
  }

  lemma FirstWithPrefix(og: seq<string>, n: nat, g: string)
    requires n <= |og| && g in og[..n]
    ensures FirstWith(og, g) == FirstWith(og[..n], g)
  {
    var a, b := FirstWith(og, g), FirstWith(og[..n], g);
    assert og[..n][b] == og[b];
  }

  /** The group id disk k is given: the stored one when its old group was
      already mapped, else the one generated for it. */
  function NewGroupOf(og: seq<string>, pr: seq<string>, k: nat): (r: string)
    requires |og| == |pr| && k < |og|
    ensures r == pr[FirstWith(og, og[k])]
  {
    GroupMapFirstSeen(og[..k + 1], pr[..k + 1]);
    assert og[k] in og[..k + 1] by { assert og[..k + 1][k] == og[k]; }
    FirstWithPrefix(og, k + 1, og[k]);
    GroupMap(og[..k + 1], pr[..k + 1])[og[k]]
  }

  /** One more disk: the disks before it keep their new groups, and it is given
      the group stored for its old group, or else its own proposal. */
  lemma NewGroupOfAppend(og: seq<string>, pr: seq<string>, g: string, b: string)
    requires |og| == |pr|
    ensures forall k :: 0 <= k < |og| ==> NewGroupOf(og + [g], pr + [b], k) == NewGroupOf(og, pr, k)
    ensures NewGroupOf(og + [g], pr + [b], |og|) ==
      if g in GroupMap(og, pr) then GroupMap(og, pr)[g] else b
  {
    var og', pr' := og + [g], pr + [b];
    assert og'[..|og|] == og;
    forall k | 0 <= k < |og| ensures NewGroupOf(og', pr', k) == NewGroupOf(og, pr, k) {
      assert og[k] in og;
      FirstWithPrefix(og', |og|, og[k]);
    }
    GroupMapFirstSeen(og, pr);
    if g in og {
      FirstWithPrefix(og', |og|, g);
    } else {
      assert og'[FirstWith(og', g)] == g;
    }
  }

  /** Two disks that shared an old group share the new one. */
  lemma SharedOldGroupSameNewGroup(og: seq<string>, pr: seq<string>, i: nat, j: nat)
    requires |og| == |pr| && i < |og| && j < |og| && og[i] == og[j]
    ensures NewGroupOf(og, pr, i) == NewGroupOf(og, pr, j)
  {
  }

  /** With distinct generated ids, disks from different old groups get different new groups. */
  lemma DistinctOldGroupsDistinctNewGroups(og: seq<string>, pr: seq<string>, i: nat, j: nat)
    requires |og| == |pr| && i < |og| && j < |og| && og[i] != og[j]
    requires forall a, b :: 0 <= a < b < |pr| ==> pr[a] != pr[b]
    ensures NewGroupOf(og, pr, i) != NewGroupOf(og, pr, j)
  {
    var fi, fj := FirstWith(og, og[i]), FirstWith(og, og[j]);
    assert fi != fj;
  }

  /** image_id_dict after disks (old image olds[k] given news[k]) were processed in order. */
  function ImageMap(olds: seq<string>, news: seq<string>): (m: map<string, string>)
    requires |olds| == |news|
    ensures m.Keys == set k | 0 <= k < |olds| :: olds[k]
  {
    if olds == [] then map[]
    else
      var n := |olds| - 1;
      ImageMap(olds[..n], news[..n])[olds[n] := news[n]]
  }

  /** The last disk, in processing order, that had old image id x. */
  function LastWith(olds: seq<string>, x: string): (k: nat)
    requires x in olds
    ensures k < |olds| && olds[k] == x
    ensures forall j :: k < j < |olds| ==> olds[j] != x
  {
    if olds[|olds| - 1] == x then |olds| - 1
    else
      assert x in olds[..|olds| - 1] by {
        var k :| 0 <= k < |olds| && olds[k] == x;
        assert olds[..|olds| - 1][k] == x;
      }
      LastWith(olds[..|olds| - 1], x)
  }

  /** An old image id maps to the id given to the last disk that carried it. */
  lemma {:induction false} ImageMapLastWins(olds: seq<string>, news: seq<string>, x: string)
    requires |olds| == |news| && x in olds
    ensures ImageMap(olds, news)[x] == news[LastWith(olds, x)]
  {
    var n := |olds| - 1;
    if olds[n] != x {
      assert x in olds[..n] by {
        var k :| 0 <= k < |olds| && olds[k] == x;
        assert olds[..n][k] == x;
      }
      ImageMapLastWins(olds[..n], news[..n], x);
    }
  }
}
