/**
 * The in-memory selector of server/lib/Selector.ts: an id, when it was last
 * seen, and the master files it was found in. The file set is a JavaScript
 * `Set`, which iterates in insertion order, so it is a list without
 * repetitions here.
 */
module MemorySelector {
  import opened Strings

  /** What a selector holds, as `toJSON` gives it. */
  datatype SelectorState = SelectorState(id: string, seenAt: Option<int>, foundInFile: seq<string>)

  /** No element occurs twice. */
  predicate Distinct(s: seq<string>) {
    forall i, j :: 0 <= i < j < |s| ==> s[i] != s[j]
  }

  /** `Set.prototype.add`: `x` joins at the end unless present. */
  function Linked(s: seq<string>, x: string): (r: seq<string>)
    ensures x in r
    ensures forall y :: y != x ==> (y in r <==> y in s)
    ensures Distinct(s) ==> Distinct(r)
    ensures x in s ==> r == s
  {
    if x in s then s else s + [x]
  }

  /** `Set.prototype.delete`: the set without `x`, the others in their order. */
  function Without(s: seq<string>, x: string): (r: seq<string>)
    ensures x !in r
    ensures forall y :: y != x ==> (y in r <==> y in s)
    ensures Distinct(s) ==> Distinct(r)
    ensures x !in s ==> r == s
    decreases |s|
  {
    if s == [] then []
    else
      var init := Without(s[..|s| - 1], x);
      var last := s[|s| - 1];
      assert forall y :: y in s <==> y in s[..|s| - 1] || y == last;
      assert Distinct(s) ==> last !in s[..|s| - 1];
      if last == x then init else init + [last]
  }

  /** A new selector: never seen, in no file. */
  function Fresh(id: string): SelectorState {
    SelectorState(id, None, [])
  }

  /** `markAsSeen` at `now`. */
  function MarkedSeen(st: SelectorState, now: int): SelectorState {
    st.(seenAt := Some(now))
  }

  /** `linkToFile`. */
  function LinkedTo(st: SelectorState, masterFile: string): SelectorState {
    st.(foundInFile := Linked(st.foundInFile, masterFile))
  }

  /** `unlinkToFile`. */
  function UnlinkedFrom(st: SelectorState, masterFile: string): SelectorState {
    st.(foundInFile := Without(st.foundInFile, masterFile))
  }

  /** Linking then unlinking a file that was not linked restores the selector. */
  lemma LinkUnlinkRoundTrip(st: SelectorState, masterFile: string)
    requires masterFile !in st.foundInFile
    ensures UnlinkedFrom(LinkedTo(st, masterFile), masterFile) == st
  {
    var s := st.foundInFile;
    assert (s + [masterFile])[..|s|] == s;
  }

  class Selector {
    const id: string
    var seenAt: Option<int>
    var foundInFile: seq<string>

    ghost predicate Valid()
      reads this
    {
      Distinct(foundInFile)
    }

    /** `toJSON`: the id, the time last seen and the linked files in insertion order. */
    function ToJson(): (j: SelectorState)
      reads this
      ensures j.id == id && j.seenAt == seenAt
      ensures forall m :: m in j.foundInFile <==> IsLinkToFile(m)
    {
      SelectorState(id, seenAt, foundInFile)
    }

    /** A new selector: the given id, never seen, in no file. */
    constructor(id: string)
      ensures Valid()
      ensures ToJson() == Fresh(id)
    {
      this.id := id;
      seenAt := None;
      foundInFile := [];
    }

    /** `markAsSeen` at time `now`: only `seenAt` changes. */
    method MarkAsSeen(now: int)
      modifies this`seenAt
      ensures ToJson() == MarkedSeen(old(ToJson()), now)
    {
      seenAt := Some(now);
    }

    predicate IsLinkToFile(masterFile: string)
      reads this
    {
      masterFile in foundInFile
    }

    /** `linkToFile`: afterwards linked; every other file keeps its link state. */
    method LinkToFile(masterFile: string)
      requires Valid()
      modifies this`foundInFile
      ensures Valid()
      ensures ToJson() == LinkedTo(old(ToJson()), masterFile)
      ensures IsLinkToFile(masterFile)
      ensures forall m :: m != masterFile ==> (IsLinkToFile(m) <==> old(IsLinkToFile(m)))
    {
      if masterFile !in foundInFile {
        foundInFile := foundInFile + [masterFile];
      }
    }

    /** `unlinkToFile`: afterwards not linked; every other file keeps its link state. */
    method UnlinkToFile(masterFile: string)
      requires Valid()
      modifies this`foundInFile
      ensures Valid()
      ensures ToJson() == UnlinkedFrom(old(ToJson()), masterFile)
      ensures !IsLinkToFile(masterFile)
      ensures forall m :: m != masterFile ==> (IsLinkToFile(m) <==> old(IsLinkToFile(m)))
    {
      foundInFile := Without(foundInFile, masterFile);
    }

    /** `hasLinks`: some file is linked. */
    predicate HasLinks()
      reads this
    {
      |foundInFile| > 0
    }
  }

  /** `hasLinks` holds exactly when some file is linked. */
  lemma HasLinksIffLinked(s: Selector)
    ensures s.HasLinks() <==> exists m :: s.IsLinkToFile(m)
  {
    if s.HasLinks() {
      assert s.IsLinkToFile(s.foundInFile[0]);
    }
  }
}
