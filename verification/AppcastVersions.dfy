/** What version order means: numbers between dots, and the first place where they differ. */
module AppcastVersions {
  import opened Options
  import opened Text
  import opened AppcastMerge

  // ----- the numbers of a version -----

  /** A version as its numbers are written, with dots between them. */
  function Dotted(ns: seq<nat>): string
    requires ns != []
  {
    if |ns| == 1 then Decimal(ns[0]) else Decimal(ns[0]) + ("." + Dotted(ns[1..]))
  }

  /** What may follow the numbers: a pre-release or a build. */
  predicate Suffix(s: string) {
    s == [] || s[0] == '-' || s[0] == '+'
  }

  lemma {:induction false} UpToStops(s: string, t: string)
    requires (forall c :: c in s ==> c !in "-+") && Suffix(t)
    ensures UpTo(s + t, "-+") == s
  {
    if s == [] {
      assert s + t == t;
    } else {
      assert (s + t)[1..] == s[1..] + t;
      UpToStops(s[1..], t);
    }
  }

  lemma {:induction false} DottedIsPlain(ns: seq<nat>)
    requires ns != []
    ensures forall c :: c in Dotted(ns) ==> c !in "-+"
  {
    hide Decimal;
    DecimalIsPlain(ns[0]);
    if |ns| > 1 { DottedIsPlain(ns[1..]); }
  }

  lemma DecimalIsPlain(n: nat)
    ensures forall c :: c in Decimal(n) ==> IsDigit(c)
    ensures forall c :: c in Decimal(n) ==> c !in "-+."
  {
    hide Decimal;
    DecimalIsWord(n);
  }

  lemma {:induction false} AllDigitsCount(s: string)
    requires AllDigits(s)
    ensures DigitCount(s) == |s|
  {
    if s != [] { AllDigitsCount(s[1..]); }
  }

  lemma IntOfDecimal(n: nat)
    ensures Int(Decimal(n)) == n
  {
    hide Decimal, Number, DigitCount;
    var d := Decimal(n);
    DecimalParses(n);
    AllDigitsCount(d);
    assert TrimStart(d) == d by { assert IsDigit(d[0]); }
    assert d[..|d|] == d;
  }

  function Decimals(ns: seq<nat>): (r: seq<string>)
    ensures |r| == |ns| && forall i :: 0 <= i < |r| ==> r[i] == Decimal(ns[i])
  {
    seq(|ns|, i requires 0 <= i < |ns| => Decimal(ns[i]))
  }

  lemma {:induction false} PiecesOfDotted(ns: seq<nat>)
    requires ns != []
    ensures Pieces(Dotted(ns), ".") == Decimals(ns)
    decreases |ns|
  {
    hide Decimal, Find;
    var d := Decimal(ns[0]);
    DecimalIsPlain(ns[0]);
    if |ns| == 1 {
      FindSkips(d, [], ".");
      FindNothing(".");
      assert d + [] == d;
    } else {
      var rest := Dotted(ns[1..]);
      FindSkips(d, "." + rest, ".");
      FindFirst(".", rest);
      var s := d + ("." + rest);
      assert s[..|d|] == d && s[|d| + 1..] == rest;
      PiecesOfDotted(ns[1..]);
      assert Decimals(ns) == [d] + Decimals(ns[1..]);
    }
  }

  /** The fields of a version are the numbers written in it, as numbers. */
  lemma FieldsAreTheNumbers(ns: seq<nat>, suffix: string)
    requires ns != [] && Suffix(suffix)
    ensures |Fields(Dotted(ns) + suffix)| == |ns|
    ensures forall i :: 0 <= i < |ns| ==> Fields(Dotted(ns) + suffix)[i] == ns[i]
  {
    hide Pieces, UpTo, Int, Dotted;
    DottedIsPlain(ns);
    UpToStops(Dotted(ns), suffix);
    PiecesOfDotted(ns);
    forall i | 0 <= i < |ns| ensures Int(Decimals(ns)[i]) == ns[i] { IntOfDecimal(ns[i]); }
  }

  // ----- the order -----

  /** The place `k` is the first where the two have different numbers, missing ones being
      zero. */
  predicate FirstDiffers(a: seq<int>, b: seq<int>, k: nat) {
    At(a, k) != At(b, k) && forall j :: 0 <= j < k ==> At(a, j) == At(b, j)
  }

  lemma {:induction false} DifferenceThere(a: seq<int>, b: seq<int>, i: nat, k: nat)
    requires i <= k && FirstDiffers(a, b, k)
    ensures Difference(a, b, i) == At(a, k) - At(b, k)
    decreases k - i
  {
    StepOver(a, b, i);
    if i < k { DifferenceThere(a, b, i + 1, k); }
  }

  /** The larger number at the first difference makes the newer version. */
  lemma FirstDifferenceDecides(u: string, v: string, k: nat)
    requires FirstDiffers(Fields(u), Fields(v), k)
    ensures Compared(u, v) > 0 <==> At(Fields(u), k) > At(Fields(v), k)
    ensures Compared(u, v) < 0 <==> At(Fields(u), k) < At(Fields(v), k)
  {
    hide Fields, Difference;
    DifferenceThere(Fields(u), Fields(v), 0, k);
  }

  /** In a merged feed the earlier of two items has the larger number at the first place where
      their versions differ. */
  lemma LargerNumbersFirst(existing: seq<Item>, incoming: seq<Item>, i: nat, j: nat, k: nat)
    requires i < j < |Merged(existing, incoming)|
    requires var r := Merged(existing, incoming); FirstDiffers(Fields(r[i].version), Fields(r[j].version), k)
    ensures var r := Merged(existing, incoming); At(Fields(r[i].version), k) > At(Fields(r[j].version), k)
  {
    hide Fields, Merged, Compared, FirstDiffers, Latest;
    MergedIs(existing, incoming);
    var r := Merged(existing, incoming);
    FirstDifferenceDecides(r[i].version, r[j].version, k);
    assert NotOlder(r[i].version, r[j].version);
    FirstDiffersIs(Fields(r[i].version), Fields(r[j].version), k);
  }

  lemma FirstDiffersIs(a: seq<int>, b: seq<int>, k: nat)
    requires FirstDiffers(a, b, k)
    ensures At(a, k) != At(b, k)
  {
  }

  // ----- two releases -----

  lemma DottedLiterals()
    ensures Dotted([1, 9, 0]) == "1.9.0" && Dotted([1, 10, 0]) == "1.10.0"
  {
    assert [1, 9, 0][1..] == [9, 0] && [9, 0][1..] == [0];
    assert [1, 10, 0][1..] == [10, 0] && [10, 0][1..] == [0];
    assert Decimal(0) == "0" && Decimal(1) == "1" && Decimal(9) == "9" && Decimal(10) == "10";
    assert Dotted([9, 0]) == "9.0" && Dotted([10, 0]) == "10.0";
  }

  lemma TenIsNewer()
    ensures Compared("1.10.0", "1.9.0") > 0
  {
    hide Fields, Dotted, Compared;
    DottedLiterals();
    FieldsAreTheNumbers([1, 9, 0], "");
    FieldsAreTheNumbers([1, 10, 0], "");
    assert "1.9.0" + "" == "1.9.0" && "1.10.0" + "" == "1.10.0";
    FirstDifferenceDecides("1.10.0", "1.9.0", 1);
  }

  lemma PutBoth(a: Item, b: Item)
    requires a.version != b.version
    ensures PutAll(PutAll([], [a]), [b]) == [a, b]
  {
    hide Put;
    assert [a][..0] == [] && [b][..0] == [];
    PutNew([], a);
    PutNew([a], b);
    assert PutAll([a], []) == [a];
    assert [] + [a] == [a] && [a] + [b] == [a, b];
  }

  lemma SortedBoth(a: Item, b: Item)
    requires !NotOlder(a.version, b.version)
    ensures Sorted([a, b]) == [b, a]
  {
    hide NotOlder;
    assert [a][..0] == [] && [a, b][..1] == [a];
    assert Sorted([a]) == [a];
  }

  /** The release 1.10.0 goes before 1.9.0, though it comes after it as text. */
  lemma TenGoesFirst(nine: Item, ten: Item)
    requires nine.version == "1.9.0" && ten.version == "1.10.0"
    ensures Merged([nine], [ten]) == [ten, nine]
  {
    hide Compared, PutAll, Sorted;
    TenIsNewer();
    VersionsArePreordered("1.10.0", "1.9.0", "1.9.0");
    PutBoth(nine, ten);
    SortedBoth(nine, ten);
  }

  // ----- versions that compare equal -----

  /** The place where a version is listed first. */
  function FirstPlace(items: seq<Item>, version: string): nat {
    if items == [] || items[0].version == version then 0 else 1 + FirstPlace(items[1..], version)
  }

  /** In the order of their first places in `all`. */
  predicate InOrder(all: seq<Item>, items: seq<Item>) {
    forall i, j :: 0 <= i < j < |items| ==> FirstPlace(all, items[i].version) < FirstPlace(all, items[j].version)
  }

  lemma {:induction false} FirstPlaceOf(items: seq<Item>, k: nat)
    requires k < |items|
    ensures FirstPlace(items, items[k].version) <= k
  {
    if k > 0 { FirstPlaceOf(items[1..], k - 1); }
  }

  /** One item more changes no place of a version that was there, and a new one comes last. */
  lemma {:induction false} PlacesStay(items: seq<Item>, item: Item, version: string)
    ensures Known(items, version) ==>
      FirstPlace(items + [item], version) == FirstPlace(items, version) < |items|
    ensures !Known(items, version) ==> FirstPlace(items + [item], version) >= |items|
  {
    if items != [] {
      assert (items + [item])[1..] == items[1..] + [item];
      KnownFirst(items, version);
      PlacesStay(items[1..], item, version);
    }
  }

  lemma KnownFirst(items: seq<Item>, version: string)
    requires items != []
    ensures Known(items, version) <==> items[0].version == version || Known(items[1..], version)
  {
    if Known(items, version) && items[0].version != version {
      var k :| 0 <= k < |items| && items[k].version == version;
      assert items[1..][k - 1] == items[k];
    }
    if Known(items[1..], version) {
      var k :| 0 <= k < |items[1..]| && items[1..][k].version == version;
      assert items[k + 1] == items[1..][k];
    }
  }

  lemma LatestIsKnown(items: seq<Item>, x: Item)
    requires Latest(items, x.version) == Some(x)
    ensures Known(items, x.version)
  {
    var k :| 0 <= k < |items| && items[k] == x;
  }

  /** The map keeps the versions in the order of their first places. */
  lemma {:induction false} MapInOrder(items: seq<Item>)
    ensures InOrder(items, PutAll([], items))
    decreases |items|
  {
    hide Put, FirstPlace, Latest;
    if items != [] {
      var n := |items| - 1;
      var before, item := PutAll([], items[..n]), items[n];
      assert items == items[..n] + [item];
      MapInOrder(items[..n]);
      MapHoldsLatest(items[..n]);
      forall i | 0 <= i < |before| ensures Known(items[..n], before[i].version) {
        assert before[i] in before;
        LatestIsKnown(items[..n], before[i]);
      }
      if Known(items[..n], item.version) { KnownIsHeld(items[..n], item.version); }
      PutInOrder(items[..n], before, item);
    }
  }

  lemma KnownIsHeld(items: seq<Item>, version: string)
    requires Known(items, version)
    ensures Latest(PutAll([], items), version).Some?
  {
    hide PutAll, Latest;
    var k :| 0 <= k < |items| && items[k].version == version;
    LatestExists(items, k);
    MapHoldsLatest(items);
    var x := Latest(items, version).value;
    var m := PutAll([], items);
    assert x in m;
    var j :| 0 <= j < |m| && m[j] == x;
    LatestExists(m, j);
  }

  lemma PutInOrder(all: seq<Item>, before: seq<Item>, item: Item)
    requires Distinct(before) && InOrder(all, before)
    requires forall i :: 0 <= i < |before| ==> Known(all, before[i].version)
    requires Latest(before, item.version).None? ==> !Known(all, item.version)
    ensures InOrder(all + [item], Put(before, item))
  {
    hide Put, FirstPlace, Latest;
    var r := Put(before, item);
    PutAt(before, item);
    forall i | 0 <= i < |before|
      ensures r[i].version == before[i].version
      ensures FirstPlace(all + [item], r[i].version) == FirstPlace(all, before[i].version) < |all|
    {
      PlacesStay(all, item, before[i].version);
    }
    PlacesStay(all, item, item.version);
  }

  /** Where two of the items compare equal, the first is in its first place before the second. */
  predicate TiesInOrder(all: seq<Item>, items: seq<Item>) {
    forall i, j :: 0 <= i < j < |items| && Compared(items[i].version, items[j].version) == 0 ==>
      FirstPlace(all, items[i].version) < FirstPlace(all, items[j].version)
  }

  /** A later item goes behind all those that compare equal. */
  lemma {:induction false} InsertedTies(all: seq<Item>, items: seq<Item>, item: Item)
    requires NewestFirst(items) && TiesInOrder(all, items)
    requires forall x :: x in items ==> FirstPlace(all, x.version) < FirstPlace(all, item.version)
    ensures TiesInOrder(all, Inserted(items, item))
  {
    hide Compared, FirstPlace;
    if items != [] {
      var first, rest := items[0], items[1..];
      assert items == [first] + rest;
      FirstIsNewest(items);
      if NotOlder(first.version, item.version) {
        assert TiesInOrder(all, rest);
        InsertedTies(all, rest, item);
        InsertedMembers(rest, item);
        forall x | x in Inserted(rest, item) && Compared(first.version, x.version) == 0
          ensures FirstPlace(all, first.version) < FirstPlace(all, x.version)
        {
          if x != item { TieInRest(all, items, x); }
        }
        TiesBehind(all, first, Inserted(rest, item));
      } else {
        forall x | x in items ensures Compared(item.version, x.version) > 0 {
          VersionsArePreordered(item.version, first.version, x.version);
          StrictlyNewer(item.version, first.version, x.version);
        }
        TiesBehind(all, item, items);
      }
    }
  }

  lemma TieInRest(all: seq<Item>, items: seq<Item>, x: Item)
    requires items != [] && TiesInOrder(all, items) && x in items[1..] && Compared(items[0].version, x.version) == 0
    ensures FirstPlace(all, items[0].version) < FirstPlace(all, x.version)
  {
    var k :| 0 <= k < |items[1..]| && items[1..][k] == x;
    assert items[k + 1] == x;
  }

  lemma TiesBehind(all: seq<Item>, first: Item, items: seq<Item>)
    requires TiesInOrder(all, items)
    requires forall x :: x in items && Compared(first.version, x.version) == 0 ==>
               FirstPlace(all, first.version) < FirstPlace(all, x.version)
    ensures TiesInOrder(all, [first] + items)
  {
    hide Compared, FirstPlace;
  }

  lemma StrictlyNewer(u: string, v: string, w: string)
    requires Compared(u, v) > 0 && (v == w || NotOlder(v, w))
    ensures Compared(u, w) > 0
  {
    hide Fields, Difference;
    if v != w { DifferenceTransitive(Fields(u), Fields(v), Fields(w), 0); }
  }

  lemma {:induction false} SortedTies(all: seq<Item>, items: seq<Item>)
    requires InOrder(all, items)
    ensures TiesInOrder(all, Sorted(items))
  {
    hide Inserted, FirstPlace, Compared, InOrder, TiesInOrder, NewestFirst;
    if items == [] {
      NoTies(all);
    } else {
      var n := |items| - 1;
      LastInOrder(all, items);
      SortedTies(all, items[..n]);
      SortedKeeps(items[..n]);
      InsertedTies(all, Sorted(items[..n]), items[n]);
    }
  }

  lemma NoTies(all: seq<Item>)
    ensures TiesInOrder(all, [])
  {
  }

  lemma LastInOrder(all: seq<Item>, items: seq<Item>)
    requires InOrder(all, items) && items != []
    ensures InOrder(all, items[..|items| - 1])
    ensures var n := |items| - 1;
      forall x :: x in items[..n] ==> FirstPlace(all, x.version) < FirstPlace(all, items[n].version)
  {
    hide FirstPlace;
    var n := |items| - 1;
    forall x | x in items[..n] ensures FirstPlace(all, x.version) < FirstPlace(all, items[n].version) {
      var k :| 0 <= k < n && items[..n][k] == x;
      assert items[k] == x;
    }
  }

  /** Versions that compare equal, as 1.0 and 1.0.0 do, keep the order in which they were first
      listed, whichever of their entries is the last. */
  lemma TiesKeepTheirOrder(existing: seq<Item>, incoming: seq<Item>)
    ensures TiesInOrder(existing + incoming, Merged(existing, incoming))
  {
    hide Sorted, PutAll, TiesInOrder, InOrder;
    PutAllConcat([], existing, incoming);
    MapInOrder(existing + incoming);
    SortedTies(existing + incoming, PutAll([], existing + incoming));
  }
}
