/** The order in which the team roster is shown: everyone else first, then the
    entrepreneurs in residence, each group by last name. */
module TeamOrder {
  import opened Wrappers
  import opened Strings

  /** One entry of the team data feed. */
  datatype Member = Member(name: string, position: string, image: string, bio: string, linkedinUrl: Option<string>)

  const EirMarker: string := "entrepreneur in residence"

  /** The member is an entrepreneur in residence: the lower-cased position contains
      the marker, that is, some stretch of the position equals the marker once its
      letters are lowered. */
  predicate IsEir(m: Member)
    ensures IsEir(m) <==> exists i: nat :: OccursIgnoringCaseAt(m.position, EirMarker, i)
  {
    IncludesLowered(m.position, EirMarker);
    Includes(ToLower(m.position), EirMarker)
  }

  /** Upper or lower case in the position makes no difference to the group. */
  lemma IsEirCaseInsensitive(a: Member, b: Member)
    requires |a.position| == |b.position|
    requires forall i :: 0 <= i < |a.position| ==> LowerChar(a.position[i]) == LowerChar(b.position[i])
    ensures IsEir(a) <==> IsEir(b)
  {
    assert ToLower(a.position) == ToLower(b.position);
  }

  /** The marker is found whatever its capitalisation and whatever surrounds it. */
  lemma EirDetectedInAnyCase(prefix: string, marker: string, suffix: string, m: Member)
    requires ToLower(marker) == EirMarker
    requires m.position == prefix + marker + suffix
    ensures IsEir(m)
  {
    var p := ToLower(m.position);
    assert p[|prefix|..|prefix| + |EirMarker|] == EirMarker;
    assert OccursAt(p, EirMarker, |prefix|);
  }

  /** `name.split(" ").pop() || ""`: the longest space-free suffix of the name. */
  function LastName(name: string): (r: string)
    ensures |r| <= |name| && name[|name| - |r|..] == r
    ensures ' ' !in r
    ensures |r| < |name| ==> name[|name| - |r| - 1] == ' '
  {
    var parts := Split(name, ' ');
    SplitLast(name, ' ');
    parts[|parts| - 1]
  }

  /** A name without a space is its own last name. */
  lemma LastNameWithoutSpace(name: string)
    requires ' ' !in name
    ensures LastName(name) == name
  {
    SplitWithoutSeparator(name, ' ');
  }

  /** The `sort` comparator: negative when `a` goes first, positive when `b` does. */
  function Compare(a: Member, b: Member): (r: int)
    ensures -1 <= r <= 1
  {
    var isEirA := IsEir(a);
    var isEirB := IsEir(b);
    if isEirA && !isEirB then 1
    else if !isEirA && isEirB then -1
    else LexCompare(LastName(a.name), LastName(b.name))
  }

  /** The comparator is antisymmetric, and says "equal" exactly for two members
      of the same group with the same last name. */
  lemma CompareAntisymmetric(a: Member, b: Member)
    ensures Compare(b, a) == -Compare(a, b)
    ensures Compare(a, b) == 0 <==> (IsEir(a) == IsEir(b) && LastName(a.name) == LastName(b.name))
  {
    LexCompareAntisymmetric(LastName(a.name), LastName(b.name));
  }

  /** "Goes no later than" is transitive, so the comparator is a consistent total preorder. */
  lemma CompareTransitive(a: Member, b: Member, c: Member)
    requires Compare(a, b) <= 0 && Compare(b, c) <= 0
    ensures Compare(a, c) <= 0
  {
    if IsEir(a) == IsEir(b) == IsEir(c) {
      LexCompareTransitive(LastName(a.name), LastName(b.name), LastName(c.name));
    }
  }

  ghost predicate Sorted(s: seq<Member>)
  {
    forall i, j :: 0 <= i < j < |s| ==> Compare(s[i], s[j]) <= 0
  }

  /** Puts `m` in front of the first member it does not go after. */
  function Insert(m: Member, s: seq<Member>): (r: seq<Member>)
    requires Sorted(s)
    ensures multiset(r) == multiset(s) + multiset{m}
    ensures Sorted(r)
    decreases |s|
  {
    if s == [] then [m]
    else if Compare(m, s[0]) <= 0 then
      InsertFront(m, s);
      [m] + s
    else
      var tail := Insert(m, s[1..]);
      InsertBehind(m, s, tail);
      [s[0]] + tail
  }

  /** A member that goes no later than every member of a sorted list can be put in front of it. */
  lemma ConsSorted(x: Member, t: seq<Member>)
    requires Sorted(t)
    requires forall k :: 0 <= k < |t| ==> Compare(x, t[k]) <= 0
    ensures Sorted([x] + t)
  {
    var r := [x] + t;
    forall i, j | 0 <= i < j < |r| ensures Compare(r[i], r[j]) <= 0 {
      assert r[j] == t[j - 1];
      if i > 0 { assert r[i] == t[i - 1]; }
    }
  }

  lemma InsertFront(m: Member, s: seq<Member>)
    requires Sorted(s) && s != [] && Compare(m, s[0]) <= 0
    ensures Sorted([m] + s)
  {
    forall j | 0 <= j < |s| ensures Compare(m, s[j]) <= 0 {
      if j > 0 { CompareTransitive(m, s[0], s[j]); }
    }
    ConsSorted(m, s);
  }

  lemma InsertBehind(m: Member, s: seq<Member>, tail: seq<Member>)
    requires Sorted(s) && s != [] && Compare(m, s[0]) > 0
    requires Sorted(tail) && multiset(tail) == multiset(s[1..]) + multiset{m}
    ensures Sorted([s[0]] + tail)
    ensures multiset([s[0]] + tail) == multiset(s) + multiset{m}
  {
    assert s == [s[0]] + s[1..];
    forall k | 0 <= k < |tail| ensures Compare(s[0], tail[k]) <= 0 {
      HeadBeforeInserted(m, s, tail, tail[k]);
    }
    ConsSorted(s[0], tail);
  }

  lemma HeadBeforeInserted(m: Member, s: seq<Member>, tail: seq<Member>, x: Member)
    requires Sorted(s) && s != [] && Compare(m, s[0]) > 0
    requires multiset(tail) == multiset(s[1..]) + multiset{m}
    requires x in multiset(tail)
    ensures Compare(s[0], x) <= 0
  {
    if x == m {
      CompareAntisymmetric(m, s[0]);
    } else {
      assert x in multiset(s[1..]);
      var j :| 0 <= j < |s[1..]| && s[1..][j] == x;
      assert s[j + 1] == x;
    }
  }

  /** `[...team].sort(compare)`: a sorted copy; `team` itself is a value and stays as it was. */
  function SortTeam(team: seq<Member>): (r: seq<Member>)
    ensures multiset(r) == multiset(team)
    ensures Sorted(r)
    decreases |team|
  {
    if team == [] then []
    else
      assert team == [team[0]] + team[1..];
      Insert(team[0], SortTeam(team[1..]))
  }

  /** In a sorted roster every member who is not an entrepreneur in residence comes
      before every one who is, and each group is in order of last name. */
  lemma SortedGroups(s: seq<Member>, i: nat, j: nat)
    requires Sorted(s) && i < j < |s|
    ensures IsEir(s[i]) ==> IsEir(s[j])
    ensures IsEir(s[i]) == IsEir(s[j]) ==> LexCompare(LastName(s[i].name), LastName(s[j].name)) <= 0
  {
    assert Compare(s[i], s[j]) <= 0;
  }

  /** The displayed roster: a permutation of the feed, with the group boundary
      and the last-name order of SortedGroups. */
  lemma SortTeamOrder(team: seq<Member>)
    ensures multiset(SortTeam(team)) == multiset(team)
    ensures var r := SortTeam(team);
      forall i, j :: 0 <= i < j < |r| && IsEir(r[i]) ==> IsEir(r[j])
    ensures var r := SortTeam(team);
      forall i, j :: 0 <= i < j < |r| && IsEir(r[i]) == IsEir(r[j]) ==>
        LexCompare(LastName(r[i].name), LastName(r[j].name)) <= 0
  {
    var r := SortTeam(team);
    forall i, j | 0 <= i < j < |r|
      ensures IsEir(r[i]) ==> IsEir(r[j])
      ensures IsEir(r[i]) == IsEir(r[j]) ==> LexCompare(LastName(r[i].name), LastName(r[j].name)) <= 0
    {
      SortedGroups(r, i, j);
    }
  }
}
