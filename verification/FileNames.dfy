/** The names `data-%d.log` of the data files and the order in which a directory lists them. */
module FileNames {
  import opened Bytes

  const DATA: Bytes := [100, 97, 116, 97, 45]   // "data-"
  const DOT_LOG: Bytes := [46, 108, 111, 103]   // ".log"

  function FileName(id: nat): Bytes { DATA + Decimal(id) + DOT_LOG }

  predicate NameLess(a: nat, b: nat) { LexLess(FileName(a), FileName(b)) }

  /** The order of the names, byte by byte: `data-`, the ID in digits, `.log`. */
  lemma {:induction false} NameOrderByBytes(a: nat, b: nat, d: Bytes, e: Bytes)
    requires IsNumeral(d, a) && IsNumeral(e, b)
    ensures var x: Bytes := [100, 97, 116, 97, 45] + d + [46, 108, 111, 103];
      var y: Bytes := [100, 97, 116, 97, 45] + e + [46, 108, 111, 103];
      NameLess(a, b) <==>
        exists i :: 0 <= i < |y| && i <= |x| && x[..i] == y[..i] && (i == |x| || x[i] < y[i])
  {
    DecimalExact(a, d);
    DecimalExact(b, e);
    LexLessExact(FileName(a), FileName(b));
  }

  lemma {:induction false} FileNameInjective(a: nat, b: nat)
    requires FileName(a) == FileName(b)
    ensures a == b
  {
    var x, y := FileName(a), FileName(b);
    assert Decimal(a) == x[5..|x| - 4] == y[5..|y| - 4] == Decimal(b);
    DecimalInjective(a, b);
  }

  lemma {:induction false} NameOrderTotal(a: nat, b: nat)
    ensures NameLess(a, b) || NameLess(b, a) || a == b
    ensures !(NameLess(a, b) && NameLess(b, a)) && !NameLess(a, a)
  {
    LexTotal(FileName(a), FileName(b));
    LexTotal(FileName(a), FileName(a));
    if FileName(a) == FileName(b) { FileNameInjective(a, b); }
  }

  lemma {:induction false} NameOrderTransitive(a: nat, b: nat, c: nat)
    requires NameLess(a, b) && NameLess(b, c)
    ensures NameLess(a, c)
  {
    LexTransitive(FileName(a), FileName(b), FileName(c));
  }

  /** Names of files with rising IDs rise exactly when the smaller ID is at most the larger
      one cut to the same number of digits; so data-9.log sorts after data-10.log. */
  lemma {:induction false} NameOrderExact(a: nat, b: nat)
    requires a < b
    ensures |Decimal(a)| <= |Decimal(b)|
    ensures NameLess(a, b) <==> a <= DropDigits(b, |Decimal(b)| - |Decimal(a)|)
  {
    WidthMonotone(a, b);
    var w := Decimal(b);
    var e := |w| - |Decimal(a)|;
    var p, rest := DropDigits(b, e), w[|w| - e..];
    DecimalSplit(b, e);
    Split(w, |w| - e);
    CutName(a, []);
    CutName(p, rest);
    LexCommonPrefix(DATA, Decimal(a) + DOT_LOG, Decimal(p) + (rest + DOT_LOG));
    NumeralOrder(a, p, rest);
  }

  lemma {:induction false} CutName(p: nat, rest: Bytes)
    ensures DATA + (Decimal(p) + rest) + DOT_LOG == DATA + (Decimal(p) + (rest + DOT_LOG))
    ensures rest == [] ==> FileName(p) == DATA + (Decimal(p) + DOT_LOG)
  {
    Assoc(Decimal(p), rest, DOT_LOG);
    Assoc(DATA, Decimal(p) + rest, DOT_LOG);
    Assoc(DATA, Decimal(p), DOT_LOG);
  }

  /** `a.log` against `p` followed by further digits and `.log`: the numbers decide, and on a
      tie the dot sorts before a digit. */
  lemma {:induction false} NumeralOrder(a: nat, p: nat, rest: Bytes)
    requires |Decimal(a)| == |Decimal(p)|
    requires forall i :: 0 <= i < |rest| ==> IsDigit(rest[i])
    requires rest == [] ==> a != p
    ensures LexLess(Decimal(a) + DOT_LOG, Decimal(p) + (rest + DOT_LOG)) <==> a <= p
  {
    if a < p {
      SameWidthOrder(a, p, DOT_LOG, rest + DOT_LOG);
    } else if p < a {
      SameWidthOrder(p, a, rest + DOT_LOG, DOT_LOG);
      LexTotal(Decimal(a) + DOT_LOG, Decimal(p) + (rest + DOT_LOG));
    } else {
      LexCommonPrefix(Decimal(a), DOT_LOG, rest + DOT_LOG);
      assert IsDigit(rest[0]);
      assert (rest + DOT_LOG)[0] == rest[0] && DOT_LOG[0] == 46;
    }
  }

  lemma {:induction false} WidthMonotone(a: nat, b: nat)
    requires a <= b
    ensures |Decimal(a)| <= |Decimal(b)|
  {
    if a >= 10 { WidthMonotone(a / 10, b / 10); }
  }

  // ---------- directory listings ----------

  predicate Ascending(l: seq<nat>) {
    forall i, j :: 0 <= i < j < |l| ==> l[i] < l[j]
  }

  /** `l` is what a directory holding exactly the data files `ids` lists, sorted by name. */
  ghost predicate IsListing(l: seq<nat>, ids: set<nat>) {
    && (forall i, j :: 0 <= i < j < |l| ==> NameLess(l[i], l[j]))
    && (forall x :: x in l <==> x in ids)
  }

  lemma {:induction false} FirstByName(ids: set<nat>) returns (first: nat)
    requires ids != {}
    ensures first in ids && forall y :: y in ids && y != first ==> NameLess(first, y)
  {
    var x :| x in ids;
    var rest := ids - {x};
    if rest == {} {
      first := x;
      assert ids == {x};
    } else {
      var f := FirstByName(rest);
      NameOrderTotal(x, f);
      if NameLess(f, x) {
        first := f;
      } else {
        first := x;
        forall y | y in ids && y != x ensures NameLess(x, y) {
          if y != f { assert y in rest; NameOrderTransitive(x, f, y); }
        }
      }
    }
  }

  lemma {:induction false} ListingUnique(l: seq<nat>, m: seq<nat>, ids: set<nat>)
    requires IsListing(l, ids) && IsListing(m, ids)
    ensures l == m
    decreases |l|
  {
    assert forall x :: x in l <==> x in m;
    assert (l == [] || l[0] in m) && (m == [] || m[0] in l);
    if l != [] && m != [] {
      assert l[0] in m && m[0] in l;
      if l[0] != m[0] {
        var i :| 0 <= i < |m| && m[i] == l[0];
        var j :| 0 <= j < |l| && l[j] == m[0];
        assert NameLess(m[0], l[0]) && NameLess(l[0], m[0]);
        NameOrderTotal(l[0], m[0]);
        assert false;
      }
      ListingTail(l, ids);
      ListingTail(m, ids);
      ListingUnique(l[1..], m[1..], ids - {l[0]});
      assert l == [l[0]] + l[1..] && m == [m[0]] + m[1..];
    }
  }

  lemma {:induction false} ListingTail(l: seq<nat>, ids: set<nat>)
    requires IsListing(l, ids) && l != []
    ensures IsListing(l[1..], ids - {l[0]})
  {
    forall x | x in l[1..] ensures x != l[0] {
      NameOrderTotal(l[0], l[0]);
    }
    forall x | x in ids - {l[0]} ensures x in l[1..] {
      assert x in l;
    }
  }

  lemma {:induction false} ListingExists(ids: set<nat>) returns (l: seq<nat>)
    ensures IsListing(l, ids)
  {
    if ids == {} {
      l := [];
    } else {
      var f := FirstByName(ids);
      var t := ListingExists(ids - {f});
      l := [f] + t;
    }
  }

  /** The listing of a directory: it exists and is unique, so it is a function of the IDs. */
  ghost function Listing(ids: set<nat>): (l: seq<nat>)
    ensures IsListing(l, ids)
  {
    assert exists l :: IsListing(l, ids) by { var l := ListingExists(ids); }
    var l :| IsListing(l, ids);
    l
  }

  /** A directory is listed in ID order exactly when all its names sort as the IDs do. */
  lemma {:induction false} AscendingListing(ids: set<nat>)
    ensures Ascending(Listing(ids)) <==> forall a, b :: a in ids && b in ids && a < b ==> NameLess(a, b)
  {
    var l := Listing(ids);
    if Ascending(l) {
      forall a, b | a in ids && b in ids && a < b ensures NameLess(a, b) {
        assert a in l && b in l;
        var p :| 0 <= p < |l| && l[p] == a;
        var q :| 0 <= q < |l| && l[q] == b;
        assert p < q;
      }
    }
    if forall a, b :: a in ids && b in ids && a < b ==> NameLess(a, b) {
      forall i, j | 0 <= i < j < |l| ensures l[i] < l[j] {
        assert l[i] in l && l[j] in l && NameLess(l[i], l[j]);
        NameOrderTotal(l[i], l[j]);
      }
    }
  }

  predicate SameWidth(ids: set<nat>) {
    forall a, b :: a in ids && b in ids ==> |Decimal(a)| == |Decimal(b)|
  }

  /** IDs of one width are listed in ID order. */
  lemma {:induction false} SameWidthListing(ids: set<nat>)
    requires SameWidth(ids)
    ensures Ascending(Listing(ids))
  {
    forall a, b | a in ids && b in ids && a < b ensures NameLess(a, b) {
      NameOrderExact(a, b);
    }
    AscendingListing(ids);
  }

  /** A directory holding exactly the IDs lo..hi is listed in ID order if and only if lo and hi
      have the same number of digits. */
  lemma {:induction false} ContiguousListing(lo: nat, hi: nat, ids: set<nat>)
    requires lo <= hi
    requires forall i :: i in ids <==> lo <= i <= hi
    ensures Ascending(Listing(ids)) <==> |Decimal(lo)| == |Decimal(hi)|
  {
    if |Decimal(lo)| == |Decimal(hi)| {
      forall a | a in ids ensures |Decimal(a)| == |Decimal(lo)| {
        WidthMonotone(lo, a); WidthMonotone(a, hi);
      }
      SameWidthListing(ids);
    } else {
      WidthMonotone(lo, hi);
      var a := WidthStep(lo, hi);
      NotAscending(a, ids);
    }
  }

  lemma {:induction false} NotAscending(a: nat, ids: set<nat>)
    requires a in ids && a + 1 in ids && a >= 2 && |Decimal(a + 1)| == |Decimal(a)| + 1
    ensures !Ascending(Listing(ids))
  {
    NameOrderExact(a, a + 1);
    assert DropDigits(a + 1, 1) == DropDigits((a + 1) / 10, 0) == (a + 1) / 10;
    AscendingListing(ids);
  }

  /** Between two numbers of different width the width somewhere grows by one digit. */
  lemma {:induction false} WidthStep(lo: nat, hi: nat) returns (a: nat)
    requires lo <= hi && |Decimal(lo)| < |Decimal(hi)|
    ensures lo <= a < hi && a >= 2 && |Decimal(a + 1)| == |Decimal(a)| + 1
    decreases hi
  {
    if |Decimal(hi - 1)| < |Decimal(hi)| {
      a := hi - 1;
      WidthGrowsByOne(a);
    } else {
      a := WidthStep(lo, hi - 1);
    }
  }

  lemma {:induction false} WidthGrowsByOne(a: nat)
    ensures |Decimal(a + 1)| <= |Decimal(a)| + 1
  {
    if a >= 10 && (a + 1) / 10 != a / 10 {
      assert (a + 1) / 10 == a / 10 + 1;
      WidthGrowsByOne(a / 10);
    }
  }
}
