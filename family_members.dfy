/**
 * The fixed list of family members and the lookups over it. The list is a
 * constant; the lookups only read it.
 */
module FamilyMembers {
  import opened Common
  import opened Text

  /** `FamilyMember`. */
  datatype FamilyMember = FamilyMember(id: string, name: string, relationship: string)

  /** `SEED_MEMBERS`, in order. */
  const SeedMembers: seq<FamilyMember> := [
    FamilyMember("1", "Alejandro", "Padre"),
    FamilyMember("2", "Daniela", "Madre"),
    FamilyMember("3", "Antonio", "Hijo"),
    FamilyMember("4", "Gaspar", "Hijo")
  ]

  /** `s[i]` is the first element of `s` satisfying `p`. */
  predicate FirstMatchAt<T>(s: seq<T>, p: T -> bool, i: int) {
    0 <= i < |s| && p(s[i]) && forall j :: 0 <= j < i ==> !p(s[j])
  }

  /** `Array.prototype.find`: the first element satisfying `p`, or `None` (undefined) when there is none. */
  function Find<T>(s: seq<T>, p: T -> bool): (r: Option<T>)
    ensures r.None? <==> forall i :: 0 <= i < |s| ==> !p(s[i])
    ensures r.Some? ==> exists i :: FirstMatchAt(s, p, i) && s[i] == r.value
  {
    if s == [] then None
    else if p(s[0]) then
      assert FirstMatchAt(s, p, 0);
      Some(s[0])
    else
      var r := Find(s[1..], p);
      FirstMatchShift(s, p, r);
      r
  }

  /** A first match in the tail is a first match in the whole when the head does not match. */
  lemma FirstMatchShift<T>(s: seq<T>, p: T -> bool, r: Option<T>)
    requires s != [] && !p(s[0])
    requires r.Some? ==> exists i :: FirstMatchAt(s[1..], p, i) && s[1..][i] == r.value
    ensures r.Some? ==> exists i :: FirstMatchAt(s, p, i) && s[i] == r.value
  {
    if r.Some? {
      var i :| FirstMatchAt(s[1..], p, i) && s[1..][i] == r.value;
      forall j | 0 <= j < i + 1
        ensures !p(s[j])
      {
        if j > 0 {
          assert s[j] == s[1..][j - 1];
        }
      }
      assert FirstMatchAt(s, p, i + 1) && s[i + 1] == r.value;
    }
  }

  /** `getFamilyMembers`: a copy of the seed list. */
  function GetFamilyMembers(): (r: seq<FamilyMember>)
    ensures |r| == 4
    ensures forall i :: 0 <= i < |r| ==> r[i] in SeedMembers
    ensures forall i :: 0 <= i < |r| ==> r[i].id == [('1' as int + i) as char]
  {
    SeedMembers
  }

  /** `getFamilyMemberById`: the first seed member with the id. */
  function GetFamilyMemberById(id: string): (r: Option<FamilyMember>)
    ensures r.Some? ==> r.value in SeedMembers && r.value.id == id
    ensures r.None? <==> forall m :: m in SeedMembers ==> m.id != id
  {
    Find(SeedMembers, (m: FamilyMember) => m.id == id)
  }

  /** `getFamilyMemberByName`: the first seed member whose name equals `name` ignoring case. */
  function GetFamilyMemberByName(name: string): (r: Option<FamilyMember>)
    ensures r.Some? ==> r.value in SeedMembers && ToLower(r.value.name) == ToLower(name)
    ensures r.None? <==> forall m :: m in SeedMembers ==> ToLower(m.name) != ToLower(name)
  {
    Find(SeedMembers, (m: FamilyMember) => ToLower(m.name) == ToLower(name))
  }

  /** The seed ids are distinct, so a lookup by id finds the member with that id. */
  lemma SeedIdsDistinct()
    ensures forall i, j :: 0 <= i < j < |SeedMembers| ==> SeedMembers[i].id != SeedMembers[j].id
    ensures forall i :: 0 <= i < |SeedMembers| ==> GetFamilyMemberById(SeedMembers[i].id) == Some(SeedMembers[i])
  {
    forall i | 0 <= i < |SeedMembers|
      ensures GetFamilyMemberById(SeedMembers[i].id) == Some(SeedMembers[i])
    {
      var r := GetFamilyMemberById(SeedMembers[i].id);
      var k :| 0 <= k < |SeedMembers| && SeedMembers[k] == r.value;
      assert SeedMembers[k].id == SeedMembers[i].id;
    }
  }

  /** An unknown id such as "999" is not found. */
  lemma UnknownIdNotFound()
    ensures GetFamilyMemberById("999") == None
  {
  }

  /** Name lookup ignores case: an upper- or lower-cased name finds the same member. */
  lemma ByNameIgnoresCase(name: string)
    ensures GetFamilyMemberByName(ToUpper(name)) == GetFamilyMemberByName(name)
    ensures GetFamilyMemberByName(ToLower(name)) == GetFamilyMemberByName(name)
  {
    ToLowerOfUpper(name);
    ToLowerIdempotent(name);
  }

  /** "ALEJANDRO" finds the member with id "1"; a name not in the list finds nothing. */
  lemma ByNameExamples()
    ensures GetFamilyMemberByName("ALEJANDRO") == Some(SeedMembers[0])
    ensures GetFamilyMemberByName("Pedro") == None
  {
    assert ToLower("ALEJANDRO") == "alejandro";
    assert ToLower("Alejandro") == "alejandro";
    var p := ToLower("Pedro");
    assert p[0] == 'p';
    forall m | m in SeedMembers
      ensures ToLower(m.name) != p
    {
      assert ToLower(m.name)[0] != 'p';
    }
  }
}
