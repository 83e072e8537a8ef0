/** The page editor's section-list operations. The editor keeps a working copy
    of a company; adding, removing and moving sections replace that copy with
    one whose `sections` list is changed and whose other fields are kept. */
module Editor {
  import opened Types
  import Seqs

  datatype Direction = Up | Down

  /** Section ids are pairwise distinct. */
  ghost predicate UniqueIds(s: seq<Section>) {
    forall i, j :: 0 <= i < j < |s| ==> s[i].id != s[j].id
  }

  /** Number of sections of the given kind. */
  function KindCount(s: seq<Section>, kind: SectionType): nat {
    if s == [] then 0 else KindCount(s[..|s| - 1], kind) + (if s[|s| - 1].kind == kind then 1 else 0)
  }

  // ------------------------------------------------------------ addSection

  /** The list after adding a section of type `kind` with the fresh id
      `newId`: the old sections unchanged, then one new section whose `order`
      is the old section count and whose content is empty. */
  function WithSection(s: seq<Section>, kind: SectionType, newId: string): (r: seq<Section>)
    ensures |r| == |s| + 1 && r[..|s|] == s
    ensures r[|s|].id == newId && r[|s|].kind == kind && r[|s|].content == map[]
    ensures r[|s|].order == |s|
  {
    s + [Section(newId, kind, |s|, map[])]
  }

  /** Adding never looks at the kinds already present: every call adds one
      more section of that kind. */
  lemma AddIgnoresExistingKinds(s: seq<Section>, kind: SectionType, newId: string)
    ensures KindCount(WithSection(s, kind, newId), kind) == KindCount(s, kind) + 1
  {
    var r := WithSection(s, kind, newId);
    assert r[..|r| - 1] == s;
  }

  /** With a fresh id, adding keeps the ids distinct. */
  lemma AddKeepsIdsUnique(s: seq<Section>, kind: SectionType, newId: string)
    requires UniqueIds(s)
    requires forall k :: 0 <= k < |s| ==> s[k].id != newId
    ensures UniqueIds(WithSection(s, kind, newId))
  {
  }

  // --------------------------------------------------------- removeSection

  /** The list after removing section `id`: every section whose id differs,
      in the original order. */
  function WithoutSection(s: seq<Section>, id: string): (r: seq<Section>)
    ensures forall k :: 0 <= k < |r| ==> r[k].id != id
  {
    Seqs.Filter((x: Section) => x.id != id, s)
  }

  /** Removing keeps exactly the sections with another id, each as often as
      before, in their original relative order. */
  lemma RemoveKeepsOthers(s: seq<Section>, id: string, x: Section)
    ensures Seqs.IsSubsequence(WithoutSection(s, id), s)
    ensures multiset(WithoutSection(s, id))[x] == if x.id != id then multiset(s)[x] else 0
  {
    Seqs.FilterIsSubsequence((y: Section) => y.id != id, s);
    Seqs.FilterMultiset((y: Section) => y.id != id, s, x);
  }

  /** Removing an id that no section carries leaves the list as it was. */
  lemma RemoveAbsentIsNoOp(s: seq<Section>, id: string)
    requires forall k :: 0 <= k < |s| ==> s[k].id != id
    ensures WithoutSection(s, id) == s
  {
    Seqs.FilterAllPass((y: Section) => y.id != id, s);
  }

  /** Removing keeps the ids distinct. */
  lemma {:induction false} RemoveKeepsIdsUnique(s: seq<Section>, id: string)
    requires UniqueIds(s)
    ensures UniqueIds(WithoutSection(s, id))
  {
    if s != [] {
      var p := (y: Section) => y.id != id;
      assert s == [s[0]] + s[1..];
      Seqs.FilterConcat(p, [s[0]], s[1..]);
      RemoveKeepsIdsUnique(s[1..], id);
      var rest := WithoutSection(s[1..], id);
      forall k | 0 <= k < |rest| ensures rest[k].id != s[0].id {
        assert rest[k] in s[1..];
      }
    }
  }

  /** After removing the first of densely ordered sections and adding a new
      one, the new section's `order` equals the last old section's: orders
      are never renumbered. */
  lemma RemoveThenAddRepeatsOrder(s: seq<Section>, kind: SectionType, newId: string)
    requires |s| >= 2 && UniqueIds(s)
    requires forall k :: 0 <= k < |s| ==> s[k].order == k
    ensures var t := WithSection(WithoutSection(s, s[0].id), kind, newId);
      |t| == |s| && t[|t| - 1].order == t[|t| - 2].order
  {
    RemoveFirstOfUnique(s);
    var w := s[1..];
    var t := WithSection(w, kind, newId);
    assert t[|t| - 2] == w[|w| - 1] == s[|s| - 1];
  }

  /** With distinct ids, removing the first section's id drops just it. */
  lemma RemoveFirstOfUnique(s: seq<Section>)
    requires |s| >= 1 && UniqueIds(s)
    ensures WithoutSection(s, s[0].id) == s[1..]
  {
    var p := (y: Section) => y.id != s[0].id;
    assert s == [s[0]] + s[1..];
    Seqs.FilterConcat(p, [s[0]], s[1..]);
    Seqs.FilterAllPass(p, s[1..]);
  }

  // ----------------------------------------------------------- moveSection

  /** `findIndex` by id: the first position carrying `id`, or -1. */
  function IndexOf(s: seq<Section>, id: string): (r: int)
    ensures -1 <= r < |s|
    ensures r == -1 <==> forall k :: 0 <= k < |s| ==> s[k].id != id
    ensures r >= 0 ==> s[r].id == id && forall k :: 0 <= k < r ==> s[k].id != id
  {
    if s == [] then -1
    else if s[0].id == id then 0
    else
      var r := IndexOf(s[1..], id);
      assert forall k :: 1 <= k < |s| ==> s[k] == s[1..][k - 1];
      if r == -1 then -1 else r + 1
  }

  /** `s` with the entries at `i` and `j` exchanged. */
  function Swap<T>(s: seq<T>, i: nat, j: nat): (r: seq<T>)
    requires i < |s| && j < |s|
    ensures |r| == |s| && r[i] == s[j] && r[j] == s[i]
    ensures forall k :: 0 <= k < |s| && k != i && k != j ==> r[k] == s[k]
  {
    s[i := s[j]][j := s[i]]
  }

  /** The list after moving section `id` one place up or down: swapped with
      its neighbour when there is one, unchanged at either end and when no
      section carries `id`. */
  function Moved(s: seq<Section>, id: string, dir: Direction): (r: seq<Section>)
    ensures |r| == |s|
  {
    var i := IndexOf(s, id);
    if dir == Up && i > 0 then Swap(s, i - 1, i)
    else if dir == Down && 0 <= i < |s| - 1 then Swap(s, i, i + 1)
    else s
  }

  /** Moving the first section up or the last section down changes nothing. */
  lemma MoveAtEndsIsNoOp(s: seq<Section>, id: string)
    requires s != []
    ensures IndexOf(s, id) == 0 ==> Moved(s, id, Up) == s
    ensures IndexOf(s, id) == |s| - 1 ==> Moved(s, id, Down) == s
  {
  }

  /** Moving is a permutation that exchanges the moved section with its
      neighbour in the direction of the move and leaves every other slot. */
  lemma MoveSwapsNeighbours(s: seq<Section>, id: string, dir: Direction)
    ensures multiset(Moved(s, id, dir)) == multiset(s)
    ensures var i := IndexOf(s, id);
      var j := if dir == Up then i - 1 else i + 1;
      (0 <= i && 0 <= j < |s| ==>
         Moved(s, id, dir)[j] == s[i] && Moved(s, id, dir)[i] == s[j] &&
         forall k :: 0 <= k < |s| && k != i && k != j ==> Moved(s, id, dir)[k] == s[k]) &&
      (!(0 <= i && 0 <= j < |s|) ==> Moved(s, id, dir) == s)
  {
    var i := IndexOf(s, id);
    if dir == Up && i > 0 {
      SwapPermutes(s, i - 1, i);
    } else if dir == Down && 0 <= i < |s| - 1 {
      SwapPermutes(s, i, i + 1);
    }
  }

  lemma SwapPermutes<T>(s: seq<T>, i: nat, j: nat)
    requires i < j < |s|
    ensures multiset(Swap(s, i, j)) == multiset(s)
  {
    var r := Swap(s, i, j);
    assert s == s[..i] + [s[i]] + s[i + 1..j] + [s[j]] + s[j + 1..];
    assert r == s[..i] + [s[j]] + s[i + 1..j] + [s[i]] + s[j + 1..];
  }

  /** Moving keeps the ids distinct. */
  lemma MoveKeepsIdsUnique(s: seq<Section>, id: string, dir: Direction)
    requires UniqueIds(s)
    ensures UniqueIds(Moved(s, id, dir))
  {
    var i := IndexOf(s, id);
    if dir == Up && i > 0 {
      SwapKeepsIdsUnique(s, i - 1, i);
    } else if dir == Down && 0 <= i < |s| - 1 {
      SwapKeepsIdsUnique(s, i, i + 1);
    }
  }

  /** Exchanging two entries keeps the ids distinct. */
  lemma SwapKeepsIdsUnique(s: seq<Section>, i: nat, j: nat)
    requires i < |s| && j < |s| && UniqueIds(s)
    ensures UniqueIds(Swap(s, i, j))
  {
    var r := Swap(s, i, j);
    forall a, b | 0 <= a < b < |r| ensures r[a].id != r[b].id {
      var a' := if a == i then j else if a == j then i else a;
      var b' := if b == i then j else if b == j then i else b;
      assert r[a] == s[a'] && r[b] == s[b'];
      assert a' != b';
    }
  }

  /** Moving a section that is not first up and then down again restores the
      list. */
  lemma MoveUpThenDown(s: seq<Section>, id: string)
    requires IndexOf(s, id) > 0
    ensures Moved(Moved(s, id, Up), id, Down) == s
  {
    var i := IndexOf(s, id);
    var t := Moved(s, id, Up);
    assert IndexOf(t, id) == i - 1;
  }

  /** Moving a section that is not last down and then up again restores the
      list, provided ids are distinct (otherwise the neighbour could carry the
      same id and be found first). */
  lemma MoveDownThenUp(s: seq<Section>, id: string)
    requires UniqueIds(s)
    requires 0 <= IndexOf(s, id) < |s| - 1
    ensures Moved(Moved(s, id, Down), id, Up) == s
  {
    var i := IndexOf(s, id);
    var t := Moved(s, id, Down);
    assert t[i + 1] == s[i] && t[i] == s[i + 1];
    assert IndexOf(t, id) == i + 1;
  }

  // ----------------------------------------- moveSection as it is written

  /** The slots of the copied array: `None` stands for `undefined`. */
  function Slots(s: seq<Section>): (r: seq<Option<Section>>)
    ensures |r| == |s| && forall k :: 0 <= k < |s| ==> r[k] == Some(s[k])
  {
    seq(|s|, k requires 0 <= k < |s| => Some(s[k]))
  }

  /** `moveSection` exactly as written: the 'down' branch tests only
      `index < sections.length - 1`, which `findIndex`'s -1 passes on any
      non-empty list; the destructuring swap then reads `sections[-1]`
      (`undefined`) into slot 0 and stores the old slot 0 under the property
      "-1", which is not an array element. */
  function MovedAsWritten(s: seq<Section>, id: string, dir: Direction): (r: seq<Option<Section>>)
    ensures |r| == |s|
  {
    var i := IndexOf(s, id);
    if dir == Up && i > 0 then Swap(Slots(s), i - 1, i)
    else if dir == Down && i < |s| - 1 then
      (if i == -1 then Slots(s)[0 := None] else Swap(Slots(s), i, i + 1))
    else Slots(s)
  }

  /** The written code and `Moved` agree except for a 'down' move with an id
      that no section carries on a non-empty list, where the written code
      erases the first section. */
  lemma MovedAsWrittenDiffers(s: seq<Section>, id: string, dir: Direction)
    ensures (IndexOf(s, id) == -1 && dir == Down && s != []) ==>
      MovedAsWritten(s, id, dir)[0] == None && Moved(s, id, dir) == s
    ensures !(IndexOf(s, id) == -1 && dir == Down && s != []) ==>
      MovedAsWritten(s, id, dir) == Slots(Moved(s, id, dir))
  {
    var i := IndexOf(s, id);
    if dir == Up && i > 0 {
      assert Swap(Slots(s), i - 1, i) == Slots(Swap(s, i - 1, i));
    } else if dir == Down && 0 <= i < |s| - 1 {
      assert Swap(Slots(s), i, i + 1) == Slots(Swap(s, i, i + 1));
    }
  }

  /** A concrete instance: one section, moved 'down' by an unknown id. */
  lemma MovedAsWrittenErasesSection()
    ensures var s := [Section("a", Header, 0, map[])];
      MovedAsWritten(s, "b", Down) == [None] && Moved(s, "b", Down) == s
  {
    var s := [Section("a", Header, 0, map[])];
    assert IndexOf(s, "b") == -1;
  }

  // ------------------------------------------------------ the editor state

  /** The editor's working copy of the company. */
  class EditorState {
    var company: Company

    constructor (initial: Company)
      ensures company == initial
    {
      company := initial;
    }

    /** `addSection`: `newId` stands for the `crypto.randomUUID()` value. */
    method AddSection(kind: SectionType, newId: string)
      modifies this
      ensures company == old(company).(sections := WithSection(old(company.sections), kind, newId))
    {
      var s := company.sections;
      var newSection := Section(newId, kind, |s|, map[]);
      company := company.(sections := s + [newSection]);
    }

    /** `removeSection`. */
    method RemoveSection(id: string)
      modifies this
      ensures company == old(company).(sections := WithoutSection(old(company.sections), id))
    {
      company := company.(sections := Seqs.Filter((x: Section) => x.id != id, company.sections));
    }

    /** `moveSection`: copy the list into an array, find the section, swap it
      with its neighbour in place, store the array back. An id that no
      section carries leaves the list unchanged. */
    method MoveSection(id: string, dir: Direction)
      modifies this
      ensures company == old(company).(sections := Moved(old(company.sections), id, dir))
    {
      var s := company.sections;
      var n := |s|;
      var a := new Section[n](k requires 0 <= k < |s| => s[k]);
      assert a[..] == s;
      var index := FindIndex(a, id);
      if dir == Up && index > 0 {
        a[index], a[index - 1] := a[index - 1], a[index];
      } else if dir == Down && 0 <= index < n - 1 {
        a[index], a[index + 1] := a[index + 1], a[index];
      }
      company := company.(sections := a[..]);
    }
  }

  /** `Array.prototype.findIndex` by id over the copied array. */
  method FindIndex(a: array<Section>, id: string) returns (index: int)
    ensures index == IndexOf(a[..], id)
    ensures index == -1 <==> forall k :: 0 <= k < a.Length ==> a[k].id != id
  {
    var k := 0;
    while k < a.Length
      invariant 0 <= k <= a.Length
      invariant forall j :: 0 <= j < k ==> a[j].id != id
    {
      if a[k].id == id {
        IndexOfUnique(a[..], id, k);
        return k;
      }
      k := k + 1;
    }
    return -1;
  }

  /** The first position carrying `id` is the one `IndexOf` finds. */
  lemma IndexOfUnique(s: seq<Section>, id: string, k: nat)
    requires k < |s| && s[k].id == id
    requires forall j :: 0 <= j < k ==> s[j].id != id
    ensures IndexOf(s, id) == k
  {
  }
}
