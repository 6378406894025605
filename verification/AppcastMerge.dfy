/** Version order and the merge of appcast items (`scripts/appcast-windows.ts`). Numbers
    are unbounded. */
module AppcastMerge {
  import opened Options
  import opened Text

  datatype Item = Item(version: string, url: string, length: int, signature: string, pubDate: string)

  // ----- numbers as JavaScript reads them -----

  /** What `trim` strips and `parseInt` skips: white space and line terminators. */
  predicate JsSpace(c: char) {
    '\t' <= c <= '\r' || c == ' ' || c == '\U{A0}' || c == '\U{FEFF}' || c == '\U{1680}'
    || '\U{2000}' <= c <= '\U{200A}' || c == '\U{2028}' || c == '\U{2029}' || c == '\U{202F}'
    || c == '\U{205F}' || c == '\U{3000}'
  }

  function TrimStart(s: string): string {
    if s != [] && JsSpace(s[0]) then TrimStart(s[1..]) else s
  }

  function TrimEnd(s: string): string {
    if s != [] && JsSpace(s[|s| - 1]) then TrimEnd(s[..|s| - 1]) else s
  }

  function Trim(s: string): string {
    TrimEnd(TrimStart(s))
  }

  function DigitCount(s: string): (n: nat)
    ensures n <= |s| && AllDigits(s[..n])
  {
    if s == [] || !IsDigit(s[0]) then 0
    else
      var n := DigitCount(s[1..]);
      assert s[..1 + n] == [s[0]] + s[1..][..n];
      1 + n
  }

  /** `parseInt(s, 10) || 0`: a sign and the digits at the front, or nothing. */
  function Int(s: string): int {
    var t := TrimStart(s);
    var signed := t != [] && t[0] in "+-";
    var u := if signed then t[1..] else t;
    var n: int := Number(u[..DigitCount(u)]);
    if signed && t[0] == '-' then -n else n
  }

  // ----- versions -----

  function UpTo(s: string, stops: string): string {
    if s == [] || s[0] in stops then [] else [s[0]] + UpTo(s[1..], stops)
  }

  function Pieces(s: string, sep: string): (r: seq<string>)
    requires sep != []
    ensures r != []
    decreases |s|
  {
    match Find(s, sep)
    case None => [s]
    case Some(i) => [s[..i]] + Pieces(s[i + |sep|..], sep)
  }

  function Fields(version: string): (r: seq<int>)
    ensures r != []
  {
    var parts := Pieces(UpTo(version, "-+"), ".");
    seq(|parts|, i requires 0 <= i < |parts| => Int(parts[i]))
  }

  function At(a: seq<int>, i: nat): int {
    if i < |a| then a[i] else 0
  }

  /** The first place from `i` on where the two differ decides. */
  function Difference(a: seq<int>, b: seq<int>, i: nat): int
    decreases |a| + |b| - i
  {
    if i >= |a| && i >= |b| then 0
    else if At(a, i) != At(b, i) then At(a, i) - At(b, i)
    else Difference(a, b, i + 1)
  }

  function Compared(left: string, right: string): int {
    Difference(Fields(left), Fields(right), 0)
  }

  method CompareVersions(left: string, right: string) returns (r: int)
    ensures r == Compared(left, right)
  {
    hide Fields;
    var a, b := Fields(left), Fields(right);
    var n := if |a| > |b| then |a| else |b|;
    var index := 0;
    while index < n
      invariant index <= n && Difference(a, b, 0) == Difference(a, b, index)
    {
      var difference := At(a, index) - At(b, index);
      if difference != 0 {
        return difference;
      }
      index := index + 1;
    }
    return 0;
  }

  predicate NotOlder(left: string, right: string) {
    Compared(left, right) >= 0
  }

  lemma {:induction false} DifferenceMirrored(a: seq<int>, b: seq<int>, i: nat)
    ensures Difference(a, b, i) == -Difference(b, a, i)
    decreases |a| + |b| - i
  {
    if i < |a| || i < |b| { DifferenceMirrored(a, b, i + 1); }
  }

  lemma {:induction false} DifferenceTransitive(a: seq<int>, b: seq<int>, c: seq<int>, i: nat)
    requires Difference(a, b, i) >= 0 && Difference(b, c, i) >= 0
    ensures Difference(a, c, i) >= 0
    ensures Difference(a, b, i) > 0 || Difference(b, c, i) > 0 ==> Difference(a, c, i) > 0
    decreases |a| + |b| + |c| - i
  {
    if i < |a| || i < |b| || i < |c| {
      StepOver(a, b, i);
      StepOver(b, c, i);
      StepOver(a, c, i);
      if At(a, i) == At(b, i) && At(b, i) == At(c, i) {
        DifferenceTransitive(a, b, c, i + 1);
      }
    }
  }

  lemma StepOver(a: seq<int>, b: seq<int>, i: nat)
    ensures Difference(a, b, i) == if At(a, i) != At(b, i) then At(a, i) - At(b, i) else Difference(a, b, i + 1)
  {
  }

  /** Missing fields are zero: versions compare equal exactly when all their fields agree. */
  lemma {:induction false} EqualIff(a: seq<int>, b: seq<int>, i: nat)
    ensures Difference(a, b, i) == 0 <==> forall k :: i <= k ==> At(a, k) == At(b, k)
    decreases |a| + |b| - i
  {
    if i < |a| || i < |b| {
      EqualIff(a, b, i + 1);
      assert (forall k :: i <= k ==> At(a, k) == At(b, k))
        <==> At(a, i) == At(b, i) && forall k :: i + 1 <= k ==> At(a, k) == At(b, k);
    }
  }

  /** A total preorder: any two versions compare, and comparing is transitive. */
  lemma VersionsArePreordered(u: string, v: string, w: string)
    ensures NotOlder(v, v) && (NotOlder(u, v) || NotOlder(v, u))
    ensures NotOlder(u, v) && NotOlder(v, w) ==> NotOlder(u, w)
    ensures Compared(u, v) == 0 <==> forall k: nat :: At(Fields(u), k) == At(Fields(v), k)
    ensures Compared(u, v) == -Compared(v, u)
  {
    hide Fields, Difference;
    EqualIff(Fields(v), Fields(v), 0);
    EqualIff(Fields(u), Fields(v), 0);
    DifferenceMirrored(Fields(u), Fields(v), 0);
    if NotOlder(u, v) && NotOlder(v, w) { DifferenceTransitive(Fields(u), Fields(v), Fields(w), 0); }
  }

  // ----- the map by version -----

  predicate Distinct(items: seq<Item>) {
    forall i, j :: 0 <= i < j < |items| ==> items[i].version != items[j].version
  }

  /** `Map.set`: a known version keeps its place. */
  function Put(items: seq<Item>, item: Item): seq<Item> {
    if items == [] then [item]
    else if items[0].version == item.version then [item] + items[1..]
    else [items[0]] + Put(items[1..], item)
  }

  function PutAll(items: seq<Item>, more: seq<Item>): seq<Item> {
    if more == [] then items else Put(PutAll(items, more[..|more| - 1]), more[|more| - 1])
  }

  /** The last entry for `version`. */
  function Latest(items: seq<Item>, version: string): (r: Option<Item>)
    ensures r.Some? ==> r.value.version == version && r.value in items
  {
    if items == [] then None
    else if items[|items| - 1].version == version then Some(items[|items| - 1])
    else Latest(items[..|items| - 1], version)
  }

  lemma {:induction false} LatestConcat(a: seq<Item>, b: seq<Item>, version: string)
    ensures Latest(a + b, version) ==
            match Latest(b, version) case Some(x) => Some(x) case None => Latest(a, version)
    decreases |b|
  {
    if b == [] {
      assert a + b == a;
    } else {
      assert (a + b)[..|a + b| - 1] == a + b[..|b| - 1];
      LatestConcat(a, b[..|b| - 1], version);
    }
  }

  /** The entry for the version, if there is one, gives way; else the item goes last. */
  lemma {:induction false} PutAt(items: seq<Item>, item: Item)
    requires Distinct(items)
    ensures var r := Put(items, item); var n := |items|;
      && |r| == (if Latest(items, item.version).Some? then n else n + 1)
      && (forall k :: 0 <= k < n ==> r[k] == if items[k].version == item.version then item else items[k])
      && (|r| > n ==> r[n] == item && forall k :: 0 <= k < n ==> items[k].version != item.version)
  {
    hide Put, Latest;
    if Latest(items, item.version).Some? {
      var p :| 0 <= p < |items| && items[p] == Latest(items, item.version).value;
      PutPresent(items, p, item);
    } else {
      forall k | 0 <= k < |items| ensures items[k].version != item.version {
        if items[k].version == item.version { LatestExists(items, k); }
      }
      PutNew(items, item);
    }
  }

  lemma {:induction false} PutPresent(items: seq<Item>, p: nat, item: Item)
    requires Distinct(items) && p < |items| && items[p].version == item.version
    ensures Put(items, item) == items[p := item]
  {
    if p > 0 {
      PutPresent(items[1..], p - 1, item);
      assert items[p := item] == [items[0]] + items[1..][p - 1 := item];
    } else {
      assert items[0 := item] == [item] + items[1..];
    }
  }

  lemma PutDistinct(items: seq<Item>, item: Item)
    requires Distinct(items)
    ensures Distinct(Put(items, item))
  {
    hide Latest, Put;
    PutAt(items, item);
  }

  /** The map holds, once each, the last entry for every version. */
  lemma {:induction false} MapHoldsLatest(items: seq<Item>)
    ensures Distinct(PutAll([], items))
    ensures forall x :: x in PutAll([], items) <==> Latest(items, x.version) == Some(x)
  {
    hide Put;
    if items != [] {
      var n := |items| - 1;
      var before := PutAll([], items[..n]);
      MapHoldsLatest(items[..n]);
      PutDistinct(before, items[n]);
      forall x ensures x in PutAll([], items) <==> Latest(items, x.version) == Some(x) {
        PutMembers(before, items[n], x);
      }
    }
  }

  lemma PutMembers(items: seq<Item>, item: Item, x: Item)
    requires Distinct(items)
    ensures x in Put(items, item) <==> x == item || (x in items && x.version != item.version)
  {
    hide Put;
    PutAt(items, item);
    var r := Put(items, item);
    if x in items && x.version != item.version {
      var k :| 0 <= k < |items| && items[k] == x;
      assert r[k] == x;
    }
    if x == item {
      if |r| > |items| {
        assert r[|items|] == item;
      } else {
        var k :| 0 <= k < |items| && items[k] == Latest(items, item.version).value;
        assert r[k] == item;
      }
    }
  }

  lemma {:induction false} PutAllConcat(items: seq<Item>, a: seq<Item>, b: seq<Item>)
    ensures PutAll(items, a + b) == PutAll(PutAll(items, a), b)
    decreases |b|
  {
    hide Put;
    if b == [] {
      assert a + b == a;
    } else {
      assert (a + b)[..|a + b| - 1] == a + b[..|b| - 1];
      PutAllConcat(items, a, b[..|b| - 1]);
    }
  }

  // ----- newest first -----

  predicate NewestFirst(items: seq<Item>) {
    forall i, j :: 0 <= i < j < |items| ==> NotOlder(items[i].version, items[j].version)
  }

  /** After everything that is not older. */
  function Inserted(items: seq<Item>, item: Item): seq<Item> {
    if items == [] then [item]
    else if NotOlder(items[0].version, item.version) then [items[0]] + Inserted(items[1..], item)
    else [item] + items
  }

  /** A stable sort, newest first. */
  function Sorted(items: seq<Item>): seq<Item> {
    if items == [] then [] else Inserted(Sorted(items[..|items| - 1]), items[|items| - 1])
  }

  lemma {:induction false} InsertedMembers(items: seq<Item>, item: Item)
    ensures |Inserted(items, item)| == |items| + 1
    ensures forall x :: x in Inserted(items, item) <==> x == item || x in items
  {
    hide NotOlder;
    if items != [] {
      assert items == [items[0]] + items[1..];
      InsertedMembers(items[1..], item);
    }
  }

  lemma {:induction false} InsertedNewestFirst(items: seq<Item>, item: Item)
    requires NewestFirst(items)
    ensures NewestFirst(Inserted(items, item))
  {
    hide Compared;
    if items != [] {
      var first, rest := items[0], items[1..];
      assert items == [first] + rest;
      if NotOlder(first.version, item.version) {
        InsertedNewestFirst(rest, item);
        InsertedMembers(rest, item);
        assert forall x :: x in rest ==> NotOlder(first.version, x.version) by { FirstIsNewest(items); }
        Ahead(first, Inserted(rest, item));
      } else {
        VersionsArePreordered(first.version, item.version, item.version);
        forall x | x in items ensures NotOlder(item.version, x.version) {
          FirstIsNewest(items);
          VersionsArePreordered(item.version, first.version, x.version);
          VersionsArePreordered(first.version, first.version, first.version);
        }
        Ahead(item, items);
      }
    }
  }

  lemma FirstIsNewest(items: seq<Item>)
    requires NewestFirst(items) && items != []
    ensures forall x :: x in items[1..] ==> NotOlder(items[0].version, x.version)
    ensures NewestFirst(items[1..])
  {
    hide NotOlder;
    forall x | x in items[1..] ensures NotOlder(items[0].version, x.version) {
      var k :| 0 <= k < |items[1..]| && items[1..][k] == x;
      assert items[k + 1] == x;
    }
  }

  lemma Ahead(first: Item, items: seq<Item>)
    requires NewestFirst(items) && forall x :: x in items ==> NotOlder(first.version, x.version)
    ensures NewestFirst([first] + items)
  {
    hide NotOlder;
  }

  lemma {:induction false} SortedKeeps(items: seq<Item>)
    ensures NewestFirst(Sorted(items)) && |Sorted(items)| == |items|
    ensures forall x :: x in Sorted(items) <==> x in items
  {
    hide Inserted, NewestFirst, NotOlder;
    if items == [] {
      NothingIsNewestFirst();
    } else {
      var n := |items| - 1;
      assert items == items[..n] + [items[n]];
      SortedKeeps(items[..n]);
      InsertedMembers(Sorted(items[..n]), items[n]);
      InsertedNewestFirst(Sorted(items[..n]), items[n]);
    }
  }

  lemma NothingIsNewestFirst()
    ensures NewestFirst([])
  {
  }

  lemma {:induction false} InsertedLast(items: seq<Item>, item: Item)
    requires forall x :: x in items ==> NotOlder(x.version, item.version)
    ensures Inserted(items, item) == items + [item]
  {
    hide NotOlder;
    if items != [] {
      InsertedLast(items[1..], item);
      assert items == [items[0]] + items[1..];
    }
  }

  lemma {:induction false} SortedStays(items: seq<Item>)
    requires NewestFirst(items)
    ensures Sorted(items) == items
  {
    hide NotOlder, Inserted;
    if items != [] {
      var n := |items| - 1;
      SortedStays(items[..n]);
      InsertedLast(items[..n], items[n]);
      assert items == items[..n] + [items[n]];
    }
  }

  lemma {:induction false} InsertedDistinct(items: seq<Item>, item: Item)
    requires Distinct(items) && forall x :: x in items ==> x.version != item.version
    ensures Distinct(Inserted(items, item))
  {
    hide NotOlder;
    if items != [] {
      var rest := items[1..];
      assert items == [items[0]] + rest;
      if NotOlder(items[0].version, item.version) {
        InsertedDistinct(rest, item);
        InsertedMembers(rest, item);
        forall x | x in rest ensures x.version != items[0].version {
          var k :| 0 <= k < |rest| && rest[k] == x;
          assert items[k + 1] == x;
        }
      }
    }
  }

  lemma {:induction false} SortedDistinct(items: seq<Item>)
    requires Distinct(items)
    ensures Distinct(Sorted(items))
  {
    hide Inserted;
    if items != [] {
      var n := |items| - 1;
      SortedDistinct(items[..n]);
      SortedKeeps(items[..n]);
      forall x | x in items[..n] ensures x.version != items[n].version {
        var k :| 0 <= k < n && items[..n][k] == x;
        assert items[k] == x;
      }
      InsertedDistinct(Sorted(items[..n]), items[n]);
    }
  }

  // ----- merging -----

  function Merged(existing: seq<Item>, incoming: seq<Item>): seq<Item> {
    Sorted(PutAll(PutAll([], existing), incoming))
  }

  method MergeItems(existing: seq<Item>, incoming: seq<Item>) returns (merged: seq<Item>)
    ensures merged == Merged(existing, incoming)
  {
    hide Put, Sorted;
    var byVersion: seq<Item> := [];
    for i := 0 to |existing|
      invariant byVersion == PutAll([], existing[..i])
    {
      assert existing[..i + 1][..i] == existing[..i];
      byVersion := Put(byVersion, existing[i]);
    }
    assert existing[..|existing|] == existing;
    for i := 0 to |incoming|
      invariant byVersion == PutAll(PutAll([], existing), incoming[..i])
    {
      assert incoming[..i + 1][..i] == incoming[..i];
      byVersion := Put(byVersion, incoming[i]);
    }
    assert incoming[..|incoming|] == incoming;
    merged := Sorted(byVersion);
  }

  /** One entry per version, newest first; an item is there exactly when it is the last
      one for its version, incoming ones coming after existing ones. So incoming wins, and
      no version is dropped. */
  lemma MergedIs(existing: seq<Item>, incoming: seq<Item>)
    ensures var r := Merged(existing, incoming);
      && Distinct(r) && NewestFirst(r)
      && (forall x :: x in r <==> Latest(existing + incoming, x.version) == Some(x))
      && (forall x :: x in r <==> match Latest(incoming, x.version)
                                  case Some(y) => x == y
                                  case None => Latest(existing, x.version) == Some(x))
  {
    hide Latest, PutAll, Sorted, Distinct, NewestFirst;
    PutAllConcat([], existing, incoming);
    MapHoldsLatest(existing + incoming);
    var m := PutAll([], existing + incoming);
    SortedKeeps(m);
    SortedDistinct(m);
    forall x: Item ensures Latest(existing + incoming, x.version) ==
              match Latest(incoming, x.version) case Some(y) => Some(y) case None => Latest(existing, x.version)
    {
      LatestConcat(existing, incoming, x.version);
    }
  }

  predicate Known(items: seq<Item>, version: string) {
    exists k :: 0 <= k < |items| && items[k].version == version
  }

  /** Putting in what is already there changes nothing. */
  lemma {:induction false} PutAllKnown(m: seq<Item>, more: seq<Item>)
    requires Distinct(m)
    requires forall i :: 0 <= i < |more| ==> Known(m, more[i].version)
    ensures var r := PutAll(m, more);
      && |r| == |m| && Distinct(r)
      && (forall k :: 0 <= k < |m| ==>
            r[k] == match Latest(more, m[k].version) case Some(x) => x case None => m[k])
    decreases |more|
  {
    hide Put, Distinct;
    if more != [] {
      var n := |more| - 1;
      PutAllKnown(m, more[..n]);
      var before := PutAll(m, more[..n]);
      PutAt(before, more[n]);
      PutDistinct(before, more[n]);
      assert |PutAll(m, more)| == |m| by {
        assert Known(m, more[n].version);
        var k :| 0 <= k < |m| && m[k].version == more[n].version;
        assert before[k].version == more[n].version;
      }
    }
  }

  lemma {:induction false} PutAllDistinct(items: seq<Item>)
    requires Distinct(items)
    ensures PutAll([], items) == items
  {
    if items != [] {
      var n := |items| - 1;
      PutAllDistinct(items[..n]);
      PutNew(items[..n], items[n]);
      assert items == items[..n] + [items[n]];
    }
  }

  lemma {:induction false} PutNew(items: seq<Item>, item: Item)
    requires forall k :: 0 <= k < |items| ==> items[k].version != item.version
    ensures Put(items, item) == items + [item]
  {
    if items != [] {
      PutNew(items[1..], item);
      assert items == [items[0]] + items[1..];
    }
  }

  /** Running a release again changes nothing. */
  lemma MergeIsIdempotent(existing: seq<Item>, incoming: seq<Item>)
    ensures Merged(Merged(existing, incoming), incoming) == Merged(existing, incoming)
  {
    hide Latest, PutAll, Sorted, Distinct, NewestFirst, Merged;
    var m := Merged(existing, incoming);
    MergedIs(existing, incoming);
    PutAllDistinct(m);
    forall i | 0 <= i < |incoming| ensures Known(m, incoming[i].version) {
      MentionedIsThere(existing, incoming, i);
    }
    PutAllKnown(m, incoming);
    var r := PutAll(m, incoming);
    forall k | 0 <= k < |m| ensures r[k] == m[k] {
      assert m[k] in m;
    }
    assert r == m;
    SortedStays(m);
    MergedOf(m, incoming);
  }

  lemma MergedOf(existing: seq<Item>, incoming: seq<Item>)
    ensures Merged(existing, incoming) == Sorted(PutAll(PutAll([], existing), incoming))
  {
  }

  lemma MentionedIsThere(existing: seq<Item>, incoming: seq<Item>, i: nat)
    requires i < |incoming|
    ensures Known(Merged(existing, incoming), incoming[i].version)
  {
    hide Latest, Merged;
    MergedIs(existing, incoming);
    LatestExists(incoming, i);
    var x := Latest(incoming, incoming[i].version).value;
    assert x in Merged(existing, incoming);
  }

  lemma {:induction false} LatestExists(items: seq<Item>, i: nat)
    requires i < |items|
    ensures Latest(items, items[i].version).Some?
  {
    var n := |items| - 1;
    if items[n].version != items[i].version { LatestExists(items[..n], i); }
  }
}
