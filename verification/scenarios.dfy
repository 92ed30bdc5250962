/**
 The fixture of the repository's test suite (CombinationMapTest.php): eight
 '/'-delimited combinations of browsers and operating systems, and what the
 tests expect of them, stated about the model.
 */
module Scenarios {
  import opened Options
  import opened Codec
  import opened Pattern
  import opened PatternLaws
  import opened Entries
  import opened CombinationMaps
  import Associative

  const Slash: char := '/'

  /** The fixture's combinations with their values, in the order the tests set them. */
  function FixtureRows(): seq<Row<int>> {
    [ Row(["blowser", "firefox"], 10)
    , Row(["blowser", "chrome"], 20)
    , Row(["blowser", "safari"], 30)
    , Row(["os", "windows"], 100)
    , Row(["os", "osx"], 200)
    , Row(["os", "linux", "ubuntu"], 310)
    , Row(["os", "linux", "centos"], 320)
    , Row(["os", "linux", "gentoo"], 330)
    ]
  }

  /** The fixture map: every row set in order into a '/'-delimited map. */
  function Fixture(): CombinationMap<int> {
    FromArrays(FixtureRows(), Slash)
  }

  /** Each fixture combination has two or three slash-free tokens. */
  lemma FixtureRowFree(j: nat)
    requires j < 8
    ensures 2 <= |FixtureRows()[j].combination| <= 3 && TokensFree(FixtureRows()[j].combination, Slash)
  {
    var c := FixtureRows()[j].combination;
    if j < 3 {
      assert Slash !in "blowser";
    } else {
      assert Slash !in "os";
    }
    if j >= 5 {
      assert Slash !in "linux";
    }
    assert Slash !in c[|c| - 1];
  }

  /** Fixture combinations differ in their length or in the first letter of their last token. */
  lemma FixtureRowsDistinct(i: nat, j: nat)
    requires i < j < 8
    ensures FixtureRows()[i].combination != FixtureRows()[j].combination
  {
    var a, b := FixtureRows()[i].combination, FixtureRows()[j].combination;
    if |a| == |b| {
      assert a[|a| - 1][0] != b[|b| - 1][0];
    }
  }

  /** The fixture's combinations are non-empty, slash-free and distinct. */
  lemma FixtureRowsWellFormed()
    ensures WellFormedRows(FixtureRows(), Slash)
  {
    forall j | 0 <= j < 8
      ensures |FixtureRows()[j].combination| >= 1 && TokensFree(FixtureRows()[j].combination, Slash)
    {
      FixtureRowFree(j);
    }
    forall i, j | 0 <= i < j < 8
      ensures FixtureRows()[i].combination != FixtureRows()[j].combination
    {
      FixtureRowsDistinct(i, j);
    }
  }

  /** The fixture holds one entry per row, in order, each keyed by its joined combination. */
  lemma FixtureEntries()
    ensures Fixture().entries == RowEntries(FixtureRows(), Slash)
    ensures Size(Fixture()) == 8 && Valid(Fixture())
    ensures forall i :: 0 <= i < 8 ==> ToCombination(Fixture(), Fixture().entries[i].key) == FixtureRows()[i].combination
  {
    FixtureRowsWellFormed();
    FromArraysEntries(FixtureRows(), Slash);
  }

  /** testSetAndSize: each set of a new combination grows the map by one. */
  lemma SetAndSizeScenario(n: nat)
    requires n <= 8
    ensures Size(FromArrays(FixtureRows()[..n], Slash)) == n
  {
    FixtureRowsWellFormed();
    var rows := FixtureRows()[..n];
    assert forall i :: 0 <= i < n ==> rows[i] == FixtureRows()[i];
    FromArraysEntries(rows, Slash);
  }

  /** testGet: every combination reads its value back. */
  lemma GetScenario(i: nat)
    requires i < 8
    ensures Get(Fixture(), FixtureRows()[i].combination) == Some(FixtureRows()[i].value)
  {
    FixtureEntries();
    LookupAt(Fixture().entries, i);
  }

  /**
   testGet: the empty combination reads null. Its key is the empty string,
   the key of the one-token combination [""], which no row carries.
   */
  lemma GetEmptyScenario()
    ensures Get(Fixture(), []) == None
  {
    FixtureRowsWellFormed();
    assert ToKey(Fixture(), []) == ToKey(Fixture(), [""]);
    forall j | 0 <= j < 8
      ensures FixtureRows()[j].combination != [""]
    {
      FixtureRowFree(j);
    }
    ExistFromArrays(FixtureRows(), Slash, [""]);
  }

  /** `blowser/opera` is not one of the fixture's combinations. */
  lemma NotInFixture(j: nat)
    requires j < 8
    ensures FixtureRows()[j].combination != ["blowser", "opera"]
  {
    var c := FixtureRows()[j].combination;
    if c[0] == "blowser" {
      assert c[1] != "opera";
    }
  }

  /** `blowser/opera` is a well-formed combination: two slash-free tokens. */
  lemma OperaFree()
    ensures TokensFree(["blowser", "opera"], Slash)
  {
    var c := ["blowser", "opera"];
    assert Slash !in c[0] && Slash !in c[1];
  }

  /** testExist: every fixture combination exists. */
  lemma ExistScenario(i: nat)
    requires i < 8
    ensures Exist(Fixture(), FixtureRows()[i].combination)
  {
    GetScenario(i);
  }

  /** testExist: `blowser/opera`, which no row carries, does not exist. */
  lemma AbsentScenario()
    ensures !Exist(Fixture(), ["blowser", "opera"])
  {
    FixtureRowsWellFormed();
    OperaFree();
    forall j | 0 <= j < 8
      ensures FixtureRows()[j].combination != ["blowser", "opera"]
    {
      NotInFixture(j);
    }
    ExistFromArrays(FixtureRows(), Slash, ["blowser", "opera"]);
  }

  /** The closure of testApply: doubling, where PHP's `2 * null` is 0. */
  function Twice(o: Option<int>): int {
    if o.Some? then 2 * o.value else 0
  }

  /** testApply: applying the doubling closure to a combination doubles its value. */
  lemma ApplyScenario(i: nat)
    requires i < 8
    ensures Get(Apply(Fixture(), FixtureRows()[i].combination, Twice), FixtureRows()[i].combination) == Some(2 * FixtureRows()[i].value)
  {
    GetScenario(i);
    FixtureEntries();
    GetApply(Fixture(), FixtureRows()[i].combination, Twice, FixtureRows()[i].combination);
  }

  /** The fixture's values in row order. */
  lemma FixtureValues()
    ensures ValueList(Fixture()) == seq(8, i requires 0 <= i < 8 => FixtureRows()[i].value)
  {
    FixtureEntries();
  }

  /** testValues: the values come out in the order they were set. */
  lemma ValuesScenario()
    ensures ValueList(Fixture()) == [10, 20, 30, 100, 200, 310, 320, 330]
  {
    FixtureValues();
  }

  /** testMap: mapping the tripling closure triples the value under every combination. */
  lemma MapScenario(i: nat)
    requires i < 8
    ensures Get(Map(Fixture(), (v: int) => 3 * v), FixtureRows()[i].combination) == Some(3 * FixtureRows()[i].value)
  {
    GetScenario(i);
    FixtureEntries();
    GetMap(Fixture(), (v: int) => 3 * v, FixtureRows()[i].combination);
  }

  /**
   testToArrays: the fixture's `toArrays()` is the rows it was built from.
   testFromArrays intends the same round trip, but it calls the static
   `fromArrays` on an instance and drops the map it returns.
   */
  lemma ArraysScenario()
    ensures ToArrays(Fixture()) == FixtureRows()
  {
    FixtureRowsWellFormed();
    RowsRoundTrip(FixtureRows(), Slash);
  }

  /** The partial combination `os`, any token, `ubuntu` of testBeginWith. */
  const WildQuery: seq<string> := ["os", "*", "ubuntu"]

  /** `os`, any token, `ubuntu` is a well-formed partial combination. */
  lemma WildQueryFree()
    ensures TokensFree(WildQuery, Slash)
  {
    assert Slash !in WildQuery[0] && Slash !in WildQuery[1] && Slash !in WildQuery[2];
  }

  /** Only `os/linux/ubuntu` has `os`, any token, and a token beginning with `ubuntu`. */
  lemma WildQueryHead(j: nat)
    requires j < 8
    ensures HeadMatches(Escape(WildQuery), FixtureRows()[j].combination, Slash) <==> j == 5
  {
    var p := Escape(WildQuery);
    assert p == [Lit("os"), Wild, Lit("ubuntu")];
    var ws := FixtureRows()[j].combination;
    if j == 5 {
      assert Slash !in ws[1];
      assert TokensMatch(p[..2], ws[..2], Slash);
    } else if j > 5 {
      assert ws[2][0] != 'u';
    }
  }

  /** testBeginWith: `startWith(['os', '*', 'ubuntu'])` keeps the one entry `os/linux/ubuntu`. */
  lemma StartWithScenario()
    ensures |Fixture().entries| == 8 && StartWith(Fixture(), WildQuery).entries == [Fixture().entries[5]]
    ensures Get(StartWith(Fixture(), WildQuery), FixtureRows()[5].combination) == Some(310)
  {
    FixtureEntries();
    WildQueryFree();
    EscapeDelimiterFree(WildQuery, Slash);
    forall j | 0 <= j < 8
      ensures PartMatches(Left, Escape(WildQuery), Fixture().entries[j].key, Slash) <==> j == 5
    {
      StartsWithTokens(Escape(WildQuery), Fixture().entries[j].key, Slash);
      WildQueryHead(j);
    }
    PartOnly(Fixture(), Left, WildQuery, 5);
  }

  /** The partial combination `blowser` of testBeginWith. */
  const BlowserQuery: seq<string> := ["blowser"]

  /** Only the browser rows have a first token beginning with `blowser`. */
  lemma BlowserHeadMatch(j: nat)
    requires j < 8
    ensures HeadMatches(Escape(BlowserQuery), FixtureRows()[j].combination, Slash) <==> j < 3
  {
    assert Escape(BlowserQuery) == [Lit("blowser")];
    var ws := FixtureRows()[j].combination;
    if j >= 3 {
      assert ws[0][0] != 'b';
    }
  }

  /** The key of row `j` begins with `blowser` exactly when row `j` is a browser. */
  lemma BlowserLeft(j: nat)
    requires j < 8
    ensures |Fixture().entries| == 8
    ensures PartMatches(Left, Escape(BlowserQuery), Fixture().entries[j].key, Slash) <==> j < 3
  {
    FixtureEntries();
    assert TokensFree(BlowserQuery, Slash) by {
      assert Slash !in BlowserQuery[0];
    }
    EscapeDelimiterFree(BlowserQuery, Slash);
    StartsWithTokens(Escape(BlowserQuery), Fixture().entries[j].key, Slash);
    BlowserHeadMatch(j);
  }

  /** testBeginWith: `startWith(['blowser'])` keeps the three browser entries, in order. */
  lemma StartWithBlowserScenario()
    ensures |Fixture().entries| == 8 && StartWith(Fixture(), BlowserQuery).entries == Fixture().entries[..3]
  {
    BlowserLeft(0);
    forall j | 0 <= j < 8
      ensures PartMatches(Left, Escape(BlowserQuery), Fixture().entries[j].key, Slash) <==> 0 <= j < 3
    {
      BlowserLeft(j);
    }
    PartRange(Fixture(), Left, BlowserQuery, 0, 3);
  }

  /** `os/linux` is a well-formed partial combination. */
  lemma OsLinuxFree()
    ensures TokensFree(OsLinux, Slash)
  {
    assert Slash !in OsLinux[0] && Slash !in OsLinux[1];
  }

  /** Only the `os/linux/x` rows have the token `os` followed by a token beginning with `linux`. */
  lemma OsLinuxHeadMatch(j: nat)
    requires j < 8
    ensures HeadMatches(Escape(OsLinux), FixtureRows()[j].combination, Slash) <==> j >= 5
  {
    var p := Escape(OsLinux);
    assert p == [Lit("os"), Lit("linux")];
    var ws := FixtureRows()[j].combination;
    if j >= 5 {
      assert TokensMatch(p[..1], ws[..1], Slash);
    } else if j >= 3 {
      assert ws[1][0] != 'l';
    }
  }

  /** The key of row `j` begins with `os/linux` exactly when row `j` is one of the three `os/linux/x` rows. */
  lemma OsLinuxLeft(j: nat)
    requires j < 8
    ensures |Fixture().entries| == 8
    ensures PartMatches(Left, Escape(OsLinux), Fixture().entries[j].key, Slash) <==> j >= 5
  {
    FixtureEntries();
    OsLinuxFree();
    EscapeDelimiterFree(OsLinux, Slash);
    StartsWithTokens(Escape(OsLinux), Fixture().entries[j].key, Slash);
    OsLinuxHeadMatch(j);
  }

  /** Exactly the last three fixture keys begin with `os/linux`. */
  lemma OsLinuxRun()
    ensures |Fixture().entries| == 8
    ensures forall j :: 0 <= j < 8 ==> (PartMatches(Left, Escape(OsLinux), Fixture().entries[j].key, Slash) <==> 5 <= j < 8)
  {
    OsLinuxLeft(0);
    forall j | 0 <= j < 8
      ensures PartMatches(Left, Escape(OsLinux), Fixture().entries[j].key, Slash) <==> 5 <= j < 8
    {
      OsLinuxLeft(j);
    }
  }

  /** testBeginWith: `startWith(['os', 'linux'])` keeps the three `os/linux/x` entries, in order. */
  lemma StartWithOsLinuxScenario()
    ensures |Fixture().entries| == 8 && StartWith(Fixture(), OsLinux).entries == Fixture().entries[5..8]
  {
    OsLinuxRun();
    PartRange(Fixture(), Left, OsLinux, 5, 8);
  }

  /** Two fixture combinations always differ at some position both of them have. */
  lemma FixtureDiverge(i: nat, j: nat)
    requires i < j < 8
    ensures Associative.Diverge(FixtureRows()[i].combination, FixtureRows()[j].combination)
  {
    var p, q := FixtureRows()[i].combination, FixtureRows()[j].combination;
    if i < 3 && j >= 3 {
      assert p[0] != q[0];
    } else if i < 5 {
      assert p[1] != q[1];
    } else {
      assert p[2] != q[2];
    }
  }

  /** No fixture combination is a proper prefix of another, so `toAssociative` never merges two of them. */
  lemma FixturePrefixFree()
    ensures Associative.PrefixFree(Fixture().entries, Slash)
  {
    FixtureEntries();
    forall i, j | 0 <= i < j < |Fixture().entries|
      ensures Associative.Diverge(Split(Fixture().entries[i].key, Slash), Split(Fixture().entries[j].key, Slash))
    {
      FixtureDiverge(i, j);
    }
  }

  /** testToAssociative: the nested array of the fixture holds every row's value at the path of its combination. */
  lemma ToAssociativeScenario(i: nat)
    requires i < 8
    ensures var row := FixtureRows()[i];
      |row.combination| >= 2 && Associative.Find(Associative.ToAssociative(Fixture()), row.combination) == Some(row.value)
  {
    FixturePrefixFree();
    FixtureRowFree(i);
    GetScenario(i);
    Associative.ToAssociativeFind(Fixture(), FixtureRows()[i].combination);
  }

  /** The partial combination `ubuntu` of testEndWith. */
  const UbuntuQuery: seq<string> := ["ubuntu"]

  /** `ubuntu` is a well-formed partial combination. */
  lemma UbuntuQueryFree()
    ensures TokensFree(UbuntuQuery, Slash)
  {
    assert Slash !in UbuntuQuery[0];
  }

  /** Only `os/linux/ubuntu` has a last token ending in `ubuntu`. */
  lemma UbuntuTail(j: nat)
    requires j < 8
    ensures TailMatches(Escape(UbuntuQuery), FixtureRows()[j].combination, Slash) <==> j == 5
  {
    var p := Escape(UbuntuQuery);
    assert p == [Lit("ubuntu")];
    var ws := FixtureRows()[j].combination;
    var w := ws[|ws| - 1];
    if j != 5 && |w| >= 6 {
      assert w[|w| - 1] != 'u';
    }
  }

  /** No fixture key ends in a newline, so `$` can only match at the very end. */
  lemma FixtureKeyEnd(j: nat)
    requires j < 8
    ensures !EndsInNewline(Join(FixtureRows()[j].combination, Slash))
  {
    var c := FixtureRows()[j].combination;
    var k := Join(c, Slash);
    var w := c[|c| - 1];
    JoinLast(c, Slash);
    assert k[|k| - 1] == k[|k| - |w|..][|w| - 1];
    assert w[|w| - 1] != '\n';
  }

  /** testEndWith: `endWith(['ubuntu'])` keeps the one entry `os/linux/ubuntu`. */
  lemma EndWithScenario()
    ensures |Fixture().entries| == 8 && EndWith(Fixture(), UbuntuQuery).entries == [Fixture().entries[5]]
    ensures Get(EndWith(Fixture(), UbuntuQuery), FixtureRows()[5].combination) == Some(310)
  {
    FixtureEntries();
    UbuntuQueryFree();
    EscapeDelimiterFree(UbuntuQuery, Slash);
    forall j | 0 <= j < 8
      ensures PartMatches(Right, Escape(UbuntuQuery), Fixture().entries[j].key, Slash) <==> j == 5
    {
      UbuntuRight(j);
    }
    PartOnly(Fixture(), Right, UbuntuQuery, 5);
  }

  /** `ubuntu$` matches the key of row `j` exactly when `j` is the row `os/linux/ubuntu`. */
  lemma UbuntuRight(j: nat)
    requires j < 8
    ensures |Fixture().entries| == 8
    ensures PartMatches(Right, Escape(UbuntuQuery), Fixture().entries[j].key, Slash) <==> j == 5
  {
    FixtureEntries();
    UbuntuQueryFree();
    EscapeDelimiterFree(UbuntuQuery, Slash);
    var k := Join(FixtureRows()[j].combination, Slash);
    assert Fixture().entries[j].key == k;
    EndsWithTokens(Escape(UbuntuQuery), k, Slash);
    FixtureKeyEnd(j);
    UbuntuTail(j);
  }

  /** The partial combination `os/linux` of testShave. */
  const OsLinux: seq<string> := ["os", "linux"]

  /** The combination testShave expects row `j` to end up under: `os/linux/x` becomes `x`. */
  function ShavedRow(j: nat): (c: seq<string>)
    requires j < 8
    ensures j >= 5 ==> |c| == 1 && FixtureRows()[j].combination == OsLinux + c
    ensures j < 5 ==> c == FixtureRows()[j].combination
  {
    var ws := FixtureRows()[j].combination;
    if j >= 5 then ws[2..] else ws
  }

  /** Exactly the three `os/linux/x` rows begin with the tokens `os/linux` and have more tokens. */
  lemma OsLinuxHead(j: nat)
    requires j < 8
    ensures var ws := FixtureRows()[j].combination;
      var p := Escape(OsLinux);
      (|ws| > |p| && TokensMatch(p, ws[..|p|], Slash)) <==> j >= 5
  {
    var p := Escape(OsLinux);
    assert p == [Lit("os"), Lit("linux")];
    var ws := FixtureRows()[j].combination;
    if j >= 5 {
      assert ws[..2] == OsLinux;
    } else if j >= 3 {
      assert ws[1][0] != 'l';
    }
  }

  /** The shaved combinations are pairwise distinct, so no shaved key collides. */
  lemma ShavedRowsDistinct(i: nat, j: nat)
    requires i < j < 8
    ensures ShavedRow(i) != ShavedRow(j)
  {
    if j < 5 {
      FixtureRowsDistinct(i, j);
    } else if i >= 5 {
      assert ShavedRow(i)[0][0] != ShavedRow(j)[0][0];
    } else {
      FixtureRowFree(i);
    }
  }

  /**
   testShave: `shave(['os', 'linux'])` keeps all eight values; the three
   `os/linux/x` entries move to the one-token combinations `x`, and the
   others keep their combinations.
   */
  lemma ShaveScenario()
    ensures Size(Shave(Fixture(), OsLinux)) == 8
    ensures forall j :: 0 <= j < 8 ==> Get(Shave(Fixture(), OsLinux), ShavedRow(j)) == Some(FixtureRows()[j].value)
  {
    FixtureEntries();
    var m := Fixture();
    var p := Escape(OsLinux);
    var es := ShavedEntries(m.entries, p, Slash);
    OsLinuxFree();
    EscapeDelimiterFree(OsLinux, Slash);
    assert |es| == 8;
    forall j | 0 <= j < 8
      ensures es[j] == Entry(Join(ShavedRow(j), Slash), FixtureRows()[j].value)
      ensures Split(es[j].key, Slash) == ShavedRow(j)
    {
      assert es[j] == Entry(ShaveKey(p, m.entries[j].key, Slash), m.entries[j].value);
      ShaveTokens(p, m.entries[j].key, Slash);
      OsLinuxHead(j);
    }
    forall i, j | 0 <= i < j < 8
      ensures es[i].key != es[j].key
    {
      ShavedRowsDistinct(i, j);
    }
    ShaveWithoutCollisions(m, OsLinux);
    forall j | 0 <= j < 8
      ensures Get(Shave(m, OsLinux), ShavedRow(j)) == Some(FixtureRows()[j].value)
    {
      LookupAt(es, j);
    }
  }
}
