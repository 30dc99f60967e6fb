/**
 Concrete runs of the user table: the identifier collision that the
 length-based identifier allows, operations on duplicated identifiers, and
 an end-to-end session of add, delete and search.
 */
module Scenarios {
  import opened UserTable
  import Seqs
  import Text

  const blank := Payload("", "", "", "", "", Address("", "", ""))

  function Person(id: int, name: string): User {
    User(id, name, blank)
  }

  const ann := Person(1, "Ann")
  const bob := Person(2, "Bob")
  const cy := Person(3, "Cy")

  /** Three records with identifiers 1, 2 and 3, as loaded at start-up. */
  const loaded := [ann, bob, cy]

  /** Deleting identifier 2 from Bob and Cy keeps only Cy. */
  lemma BobGoesCyStays()
    ensures Seqs.Keep([bob, cy], LacksId(2)) == [cy]
  {
    assert Seqs.Keep([cy], LacksId(2)) == [cy] by {
      assert LacksId(2)(cy);
    }
    assert [bob, cy] == [bob] + [cy] && !LacksId(2)(bob);
    Seqs.KeepCons(bob, [cy], LacksId(2));
  }

  /** Deleting identifier 2 from the loaded list leaves the first and the last record. */
  lemma DeleteFromLoaded()
    ensures Delete(loaded, 2) == [ann, cy]
  {
    BobGoesCyStays();
    assert loaded == [ann] + [bob, cy] && LacksId(2)(ann);
    Seqs.KeepCons(ann, [bob, cy], LacksId(2));
  }

  /** Adding a record after Ann (1) and Cy (3) gives it identifier 3 as well. */
  lemma AddAfterGap(data: User)
    ensures Ids(Add([ann, cy], data)) == [1, 3, 3]
    ensures !UniqueIds(Add([ann, cy], data))
  {
    var r := Add([ann, cy], data);
    assert r == [ann, cy, data.(id := 3)];
    assert Ids(r)[0] == 1 && Ids(r)[1] == 3 && Ids(r)[2] == 3;
  }

  /** Deleting identifier 2 and then adding a record gives identifier 3 twice. */
  lemma DeleteThenAddWitness(data: User)
    ensures UniqueIds(loaded)
    ensures Ids(Add(Delete(loaded, 2), data)) == [1, 3, 3]
    ensures !UniqueIds(Add(Delete(loaded, 2), data))
  {
    assert loaded[0].id == 1 && loaded[1].id == 2 && loaded[2].id == 3;
    DeleteFromLoaded();
    AddAfterGap(data);
  }

  /** Delete removes every record carrying the identifier, not just the first. */
  lemma DeleteRemovesEveryDuplicate()
    ensures Delete([Person(3, "Cy"), Person(3, "Dana")], 3) == []
  {
  }

  /** Edit replaces every record carrying the submitted identifier, not just the first. */
  lemma UpdateReplacesEveryDuplicate()
    ensures Update([Person(3, "Cy"), Person(1, "Ann"), Person(3, "Dana")], Person(3, "Eve"))
         == [Person(3, "Eve"), Person(1, "Ann"), Person(3, "Eve")]
  {
  }

  const anaSmith := Person(1, "Ana Smith")

  /** "Ana Smith" contains "ana" once lower-cased, and "ANA" lower-cases to "ana". */
  lemma AnaFacts()
    ensures Text.Lower("ANA") == "ana"
    ensures NameMatches("ana")(anaSmith)
  {
    LowerAnaSmith();
    assert "ana" <= "ana smith";
  }

  /** The lower-case forms of "ANA" and "Ana Smith". */
  lemma LowerAnaSmith()
    ensures Text.Lower("ANA") == "ana"
    ensures Text.Lower("Ana Smith") == "ana smith"
  {
  }

  /** Upper-case and lower-case search text both find a mixed-case name. */
  lemma SearchIgnoresCase()
    ensures Search([anaSmith], "ANA") == [anaSmith]
    ensures Search([anaSmith], "ana") == [anaSmith]
  {
    AnaFacts();
    assert Search([anaSmith], "ana") == [anaSmith];
    SearchCaseInsensitive([anaSmith], "ANA", "ana");
  }

  /** A name without a space character does not match the one-space search. */
  lemma NoSpaceNoMatch(u: User)
    requires ' ' !in u.name
    ensures !NameMatches(" ")(u)
  {
    var lowered := Text.Lower(u.name);
    assert Text.Lower(" ") == " ";
    assert ' ' !in lowered by {
      forall k | 0 <= k < |lowered| ensures lowered[k] != ' ' {
        assert lowered[k] == Text.LowerChar(u.name[k]);
      }
    }
    Text.ContainedCharsOccur(lowered, " ");
    assert " "[0] == ' ';
    assert !Text.Contains(lowered, " ");
  }

  /** No loaded name contains a space, and a single space is blank. */
  lemma SpaceFacts()
    ensures Text.IsBlank(" ")
    ensures !NameMatches(" ")(ann) && !NameMatches(" ")(bob) && !NameMatches(" ")(cy)
  {
    NoSpaceNoMatch(ann);
    NoSpaceNoMatch(bob);
    NoSpaceNoMatch(cy);
  }

  /**
   A search for a single space finds nobody among names without spaces, yet
   the miss is not announced because the trimmed text is empty.
   */
  lemma SpaceSearchMissesSilently()
    ensures Search(loaded, " ") == []
    ensures !NoMatchNotice(loaded, " ")
  {
    SpaceFacts();
    assert forall i :: 0 <= i < |loaded| ==> !NameMatches(" ")(loaded[i]);
    BlankSearchIsSilent(loaded, " ");
  }

  /** Among Ann, Cy and Dana only Dana's name contains "dana", ignoring case. */
  lemma DanaFacts(dana: User)
    requires dana.name == "Dana"
    ensures !NameMatches("dana")(ann) && !NameMatches("dana")(cy) && NameMatches("dana")(dana)
  {
    assert Text.Lower("dana") == "dana" && Text.Lower("Dana") == "dana";
    assert Text.Lower("Ann") == "ann" && Text.Lower("Cy") == "cy";
    Text.ContainedCharsOccur("ann", "dana");
    Text.ContainedCharsOccur("cy", "dana");
    assert "dana" <= "dana";
  }

  /** Neither Cy nor Dana carries identifier 2, so deleting 2 keeps both. */
  lemma CyAndDanaStay(dana: User)
    requires dana.id == 4
    ensures Seqs.Keep([cy, dana], LacksId(2)) == [cy, dana]
  {
    assert LacksId(2)(cy) && LacksId(2)(dana);
  }

  /** Bob carries identifier 2, so deleting 2 drops him. */
  lemma BobGoes(dana: User)
    requires dana.id == 4
    ensures Seqs.Keep([bob, cy, dana], LacksId(2)) == [cy, dana]
  {
    CyAndDanaStay(dana);
    assert [bob, cy, dana] == [bob] + [cy, dana] && !LacksId(2)(bob);
    Seqs.KeepCons(bob, [cy, dana], LacksId(2));
  }

  /** Deleting identifier 2 after Dana was added keeps Ann, Cy and Dana. */
  lemma DeleteAfterAdd(dana: User)
    requires dana.id == 4
    ensures Delete([ann, bob, cy, dana], 2) == [ann, cy, dana]
  {
    BobGoes(dana);
    assert [ann, bob, cy, dana] == [ann] + [bob, cy, dana] && LacksId(2)(ann);
    Seqs.KeepCons(ann, [bob, cy, dana], LacksId(2));
  }

  /** Searching Ann, Cy and Dana for "dana" finds Dana alone. */
  lemma SearchFindsDana(dana: User)
    requires dana.name == "Dana"
    ensures Search([ann, cy, dana], "dana") == [dana]
  {
    var p := NameMatches("dana");
    DanaFacts(dana);
    assert Seqs.Keep([dana], p) == [dana];
    assert Seqs.Keep([cy, dana], p) == [dana] by {
      assert [cy, dana] == [cy] + [dana];
      Seqs.KeepCons(cy, [dana], p);
    }
    assert [ann, cy, dana] == [ann] + [cy, dana];
    Seqs.KeepCons(ann, [cy, dana], p);
  }

  /** Ann, Cy and Dana carry identifiers 1, 3 and 4. */
  lemma IdsAfterDelete(dana: User)
    requires dana.id == 4
    ensures Ids([ann, cy, dana]) == [1, 3, 4]
  {
    var ids := Ids([ann, cy, dana]);
    assert ids[0] == 1 && ids[1] == 3 && ids[2] == 4;
  }

  /**
   Start with identifiers 1..3, add "Dana" (identifier 4), delete identifier 2,
   then search for "dana": only the added record is shown.
   */
  lemma AddDeleteSearchSession(data: User)
    requires data.name == "Dana"
    ensures |Add(loaded, data)| == 4 && Add(loaded, data)[3].id == 4
    ensures Ids(Delete(Add(loaded, data), 2)) == [1, 3, 4]
    ensures Search(Delete(Add(loaded, data), 2), "dana") == [data.(id := 4)]
  {
    var dana := data.(id := 4);
    var added := Add(loaded, data);
    assert added == [ann, bob, cy, dana];
    DeleteAfterAdd(dana);
    IdsAfterDelete(dana);
    SearchFindsDana(dana);
  }
}
