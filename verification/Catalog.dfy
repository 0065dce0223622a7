/** The hardware catalogue: matching a product to a host, and merging catalogues. */
module Catalog {
  import opened Options
  import opened Sequences
  import opened Text

  /** Fields that neither matching nor merging looks at are left out. */
  datatype Vendor = Vendor(id: string, name: string)

  datatype Product = Product(id: string, vendorId: string, name: string, defaultPorts: seq<nat>, hostnamePatterns: seq<string>)

  datatype Database = Database(vendors: seq<Vendor>, products: seq<Product>)

  predicate EqIgnoreCase(a: string, b: string) {
    Lower(a) == Lower(b)
  }

  // ---- Hosts and patterns

  const LOCAL_SUFFIXES: seq<string> := [
    ".fritz.box", ".fritz.box.", ".local", ".local.", ".lan", ".lan.", ".home", ".home.arpa", ".internal"]

  /** The host without the first suffix of the list that it ends with. */
  function Stripped(host: string, suffixes: seq<string>): string {
    if suffixes == [] then host
    else if EndsWith(host, suffixes[0]) then host[..|host| - |suffixes[0]|]
    else Stripped(host, suffixes[1..])
  }

  /** A pattern with a dot is a full name, the generic short words must stand alone, any other may occur anywhere. */
  predicate PatternMatches(host: string, clean: string, pat: string) {
    if '.' in pat then host == pat || host == pat + "."
    else if pat in {"switch", "hub", "router", "bridge"} then
      clean == pat || pat + "-" <= clean || EndsWith(clean, "-" + pat)
    else Contains(clean, pat)
  }

  // ---- Vendors

  function VendorNamed(vendors: seq<Vendor>, id: string): Option<Vendor> {
    if vendors == [] then None
    else if EqIgnoreCase(vendors[0].id, id) then Some(vendors[0])
    else VendorNamed(vendors[1..], id)
  }

  predicate VendorAgrees(db: Database, p: Product, hint: string) {
    var vendor := VendorNamed(db.vendors, p.vendorId);
    var name := if vendor.Some? then Lower(vendor.value.name) else "";
    && hint != ""
    && (|| EqIgnoreCase(p.vendorId, hint)
        || Contains(hint, p.vendorId) || Contains(p.vendorId, hint)
        || Contains(hint, Replaced(p.vendorId, '_', ' '))
        || (name != "" && (Contains(hint, name) || Contains(name, hint))))
  }

  /** With a vendor hint, only products of that vendor and generic ones (but no generic switch) are considered. */
  predicate Eligible(db: Database, p: Product, hint: string) {
    hint == "" || VendorAgrees(db, p, hint) || (p.vendorId != "generic_switch" && "generic" <= p.vendorId)
  }

  // ---- Hits

  /** A pattern that matched: which product, how long the pattern is, and whether the vendor agrees. */
  datatype Hit = Hit(product: nat, score: nat, agrees: bool)

  /** Vendor agreement first, then length. */
  predicate Better(a: Hit, b: Hit) {
    (a.agrees && !b.agrees) || (a.agrees == b.agrees && a.score > b.score)
  }

  /** A query: the host in lower case, the vendor hint in lower case, and the open ports. */
  datatype Query = Query(host: string, hint: string, ports: seq<nat>)

  function PatternHits(db: Database, q: Query, i: nat, n: nat): seq<Hit>
    requires i < |db.products| && n <= |db.products[i].hostnamePatterns|
  {
    if n == 0 then []
    else
      var p := db.products[i];
      var pat := Lower(p.hostnamePatterns[n - 1]);
      PatternHits(db, q, i, n - 1) +
      if pat != "" && PatternMatches(q.host, Stripped(q.host, LOCAL_SUFFIXES), pat)
      then [Hit(i, |pat|, VendorAgrees(db, p, q.hint))] else []
  }

  /** The hits of the first `n` products, in catalogue order. */
  function Hits(db: Database, q: Query, n: nat): seq<Hit>
    requires n <= |db.products|
  {
    if n == 0 then []
    else
      Hits(db, q, n - 1) +
      if Eligible(db, db.products[n - 1], q.hint)
      then PatternHits(db, q, n - 1, |db.products[n - 1].hostnamePatterns|) else []
  }

  function Best(hits: seq<Hit>): Option<Hit> {
    if hits == [] then None
    else
      var before, h := Best(hits[..|hits| - 1]), hits[|hits| - 1];
      if before.None? || Better(h, before.value) then Some(h) else before
  }

  predicate PortCue(q: Query, p: Product) {
    q.hint != "" && EqIgnoreCase(p.vendorId, q.hint) && exists i :: 0 <= i < |p.defaultPorts| && p.defaultPorts[i] in q.ports
  }

  function FirstByPort(products: seq<Product>, q: Query): Option<Product> {
    if products == [] then None
    else if PortCue(q, products[0]) then Some(products[0])
    else FirstByPort(products[1..], q)
  }

  function Matched(db: Database, q: Query): Option<Product> {
    var best := Best(Hits(db, q, |db.products|));
    if best.Some? && best.value.product < |db.products| then Some(db.products[best.value.product])
    else FirstByPort(db.products, q)
  }

  // ---- What a hit is

  /** `clean` is the host without the first of the local suffixes that it ends with, or the host itself. */
  ghost predicate LocalName(host: string, suffixes: seq<string>, clean: string) {
    (exists n :: FirstSuffix(host, suffixes, n) && host == clean + suffixes[n])
    || (clean == host && forall n :: 0 <= n < |suffixes| ==> !EndsWith(host, suffixes[n]))
  }

  ghost predicate FirstSuffix(host: string, suffixes: seq<string>, n: int) {
    0 <= n < |suffixes| && EndsWith(host, suffixes[n]) && forall j :: 0 <= j < n ==> !EndsWith(host, suffixes[j])
  }

  lemma {:induction false} StrippedIsLocalName(host: string, suffixes: seq<string>)
    ensures LocalName(host, suffixes, Stripped(host, suffixes))
    ensures forall c :: LocalName(host, suffixes, c) ==> c == Stripped(host, suffixes)
  {
    if suffixes != [] {
      if EndsWith(host, suffixes[0]) {
        assert FirstSuffix(host, suffixes, 0);
        assert forall n :: FirstSuffix(host, suffixes, n) ==> n == 0;
        assert host == Stripped(host, suffixes) + suffixes[0];
      } else {
        StrippedIsLocalName(host, suffixes[1..]);
        forall n ensures FirstSuffix(host, suffixes, n) <==> FirstSuffix(host, suffixes[1..], n - 1) {
          assert forall l :: 1 <= l < |suffixes| ==> suffixes[l] == suffixes[1..][l - 1];
        }
        assert forall l :: 0 <= l < |suffixes[1..]| ==> suffixes[1..][l] == suffixes[l + 1];
        SuffixesShift(host, suffixes);
      }
    }
  }

  lemma SuffixesShift(host: string, suffixes: seq<string>)
    requires suffixes != [] && forall n :: FirstSuffix(host, suffixes, n) <==> FirstSuffix(host, suffixes[1..], n - 1)
    requires !EndsWith(host, suffixes[0])
    ensures forall c :: LocalName(host, suffixes, c) <==> LocalName(host, suffixes[1..], c)
  {
    forall c ensures LocalName(host, suffixes, c) <==> LocalName(host, suffixes[1..], c) {
      if n :| FirstSuffix(host, suffixes, n) && host == c + suffixes[n] {
        assert FirstSuffix(host, suffixes[1..], n - 1);
      }
      if n :| FirstSuffix(host, suffixes[1..], n) && host == c + suffixes[1..][n] {
        assert FirstSuffix(host, suffixes, n + 1);
      }
    }
  }

  /**
   A full name must be the host, with or without a final dot; a generic word must be the local name, or stand at its
   start or end, parted by a dash; any other pattern may stand anywhere in the local name.
   */
  ghost predicate Fits(host: string, pat: string) {
    if exists i :: 0 <= i < |pat| && pat[i] == '.' then host == pat || host == pat + "."
    else exists clean :: LocalName(host, LOCAL_SUFFIXES, clean) && FitsName(clean, pat)
  }

  ghost predicate FitsName(clean: string, pat: string) {
    if pat == "switch" || pat == "hub" || pat == "router" || pat == "bridge" then
      clean == pat || pat + "-" <= clean || (exists front :: clean == front + "-" + pat)
    else Within(pat, clean)
  }

  lemma EndsWithExactly(s: string, t: string)
    ensures EndsWith(s, "-" + t) <==> exists front :: s == front + "-" + t
  {
    if EndsWith(s, "-" + t) {
      assert s == s[..|s| - |t| - 1] + "-" + t;
    }
    if front :| s == front + "-" + t {
      assert s == front + ("-" + t);
    }
  }

  lemma FitsExactly(host: string, pat: string)
    ensures PatternMatches(host, Stripped(host, LOCAL_SUFFIXES), pat) <==> Fits(host, pat)
  {
    var clean := Stripped(host, LOCAL_SUFFIXES);
    StrippedIsLocalName(host, LOCAL_SUFFIXES);
    if '.' !in pat {
      FitsNameExactly(host, clean, pat);
    }
  }

  lemma FitsNameExactly(host: string, clean: string, pat: string)
    requires '.' !in pat
    ensures PatternMatches(host, clean, pat) <==> FitsName(clean, pat)
  {
    ContainsAt(clean, pat);
    EndsWithExactly(clean, pat);
  }

  /** The hint and a name of the vendor occur one in the other; ids are compared whole in any case, names in lower case. */
  ghost predicate SharesName(db: Database, p: Product, hint: string) {
    hint != "" &&
    (|| Lower(p.vendorId) == Lower(hint)
     || Within(p.vendorId, hint) || Within(hint, p.vendorId) || Within(Replaced(p.vendorId, '_', ' '), hint)
     || exists v :: FirstWithId(db.vendors, p.vendorId, v) && v.name != ""
          && (Within(Lower(v.name), hint) || Within(hint, Lower(v.name))))
  }

  ghost predicate FirstWithId(vendors: seq<Vendor>, id: string, v: Vendor) {
    exists i :: 0 <= i < |vendors| && vendors[i] == v && Lower(v.id) == Lower(id)
      && forall j :: 0 <= j < i ==> Lower(vendors[j].id) != Lower(id)
  }

  lemma {:induction false} VendorNamedIsFirst(vendors: seq<Vendor>, id: string)
    ensures forall v :: VendorNamed(vendors, id) == Some(v) <==> FirstWithId(vendors, id, v)
  {
    if vendors != [] {
      VendorNamedIsFirst(vendors[1..], id);
      assert forall l :: 1 <= l < |vendors| ==> vendors[l] == vendors[1..][l - 1];
      forall v ensures VendorNamed(vendors, id) == Some(v) <==> FirstWithId(vendors, id, v) {
        if Lower(vendors[0].id) != Lower(id) {
          if FirstWithId(vendors, id, v) {
            var i :| 0 <= i < |vendors| && vendors[i] == v && Lower(v.id) == Lower(id)
              && forall j :: 0 <= j < i ==> Lower(vendors[j].id) != Lower(id);
            assert vendors[1..][i - 1] == v && forall j :: 0 <= j < i - 1 ==> vendors[1..][j] == vendors[j + 1];
          }
          if FirstWithId(vendors[1..], id, v) {
            var i :| 0 <= i < |vendors[1..]| && vendors[1..][i] == v && Lower(v.id) == Lower(id)
              && forall j :: 0 <= j < i ==> Lower(vendors[1..][j].id) != Lower(id);
            assert vendors[i + 1] == v;
          }
        }
      }
    }
  }

  lemma AgreesExactly(db: Database, p: Product, hint: string)
    ensures VendorAgrees(db, p, hint) <==> SharesName(db, p, hint)
  {
    VendorNamedIsFirst(db.vendors, p.vendorId);
    ContainsAt(hint, p.vendorId);
    ContainsAt(p.vendorId, hint);
    ContainsAt(hint, Replaced(p.vendorId, '_', ' '));
    var vendor := VendorNamed(db.vendors, p.vendorId);
    if vendor.Some? {
      ContainsAt(hint, Lower(vendor.value.name));
      ContainsAt(Lower(vendor.value.name), hint);
    }
  }

  /**
   `h` stands for one of the first `n` patterns of its product, which is considered without a hint, if its vendor
   agrees, or if it is generic but no generic switch.
   */
  ghost predicate StandsFor(db: Database, q: Query, n: nat, h: Hit)
    requires h.product < |db.products| && n <= |db.products[h.product].hostnamePatterns|
  {
    var p := db.products[h.product];
    && (h.agrees <==> SharesName(db, p, q.hint))
    && exists k :: 0 <= k < n && Lower(p.hostnamePatterns[k]) != "" && |p.hostnamePatterns[k]| == h.score
         && Fits(q.host, Lower(p.hostnamePatterns[k]))
  }

  ghost predicate Considered(db: Database, p: Product, hint: string) {
    hint == "" || SharesName(db, p, hint) || ("generic" <= p.vendorId && p.vendorId != "generic_switch")
  }

  lemma {:induction false} PatternHitsAre(db: Database, q: Query, i: nat, n: nat)
    requires i < |db.products| && n <= |db.products[i].hostnamePatterns|
    ensures forall h :: h in PatternHits(db, q, i, n) <==> h.product == i && HitByPattern(db, q, i, n, h)
  {
    if n > 0 {
      PatternHitsAre(db, q, i, n - 1);
    }
  }

  /** `h` stands for one of the first `n` patterns of product `i`. */
  ghost predicate HitByPattern(db: Database, q: Query, i: nat, n: nat, h: Hit)
    requires i < |db.products| && n <= |db.products[i].hostnamePatterns|
  {
    h.agrees == VendorAgrees(db, db.products[i], q.hint) &&
    exists k :: 0 <= k < n && HitAt(db.products[i].hostnamePatterns[k], q, h.score)
  }

  predicate HitAt(pattern: string, q: Query, score: nat) {
    Lower(pattern) != "" && |Lower(pattern)| == score
    && PatternMatches(q.host, Stripped(q.host, LOCAL_SUFFIXES), Lower(pattern))
  }

  lemma {:induction false} HitsComeFrom(db: Database, q: Query, n: nat)
    requires n <= |db.products|
    ensures forall h :: h in Hits(db, q, n) <==>
      h.product < n && Eligible(db, db.products[h.product], q.hint)
      && HitByPattern(db, q, h.product, |db.products[h.product].hostnamePatterns|, h)
    ensures forall i, j :: 0 <= i <= j < |Hits(db, q, n)| ==> Hits(db, q, n)[i].product <= Hits(db, q, n)[j].product
  {
    if n > 0 {
      HitsComeFrom(db, q, n - 1);
      PatternHitsAre(db, q, n - 1, |db.products[n - 1].hostnamePatterns|);
      var before, more := Hits(db, q, n - 1), PatternHits(db, q, n - 1, |db.products[n - 1].hostnamePatterns|);
      assert forall i :: 0 <= i < |before| ==> before[i] in before;
      assert forall i :: 0 <= i < |more| ==> more[i] in more;
    }
  }

  lemma StandsForExactly(db: Database, q: Query, n: nat, h: Hit)
    requires h.product < |db.products| && n <= |db.products[h.product].hostnamePatterns|
    ensures HitByPattern(db, q, h.product, n, h) <==> StandsFor(db, q, n, h)
  {
    var patterns := db.products[h.product].hostnamePatterns;
    AgreesExactly(db, db.products[h.product], q.hint);
    forall k | 0 <= k < n
      ensures HitAt(patterns[k], q, h.score) <==>
        Lower(patterns[k]) != "" && |patterns[k]| == h.score && Fits(q.host, Lower(patterns[k]))
    {
      FitsExactly(q.host, Lower(patterns[k]));
    }
  }

  /** The hits are exactly the matching patterns of the products considered, in catalogue order. */
  lemma HitsAre(db: Database, q: Query, n: nat)
    requires n <= |db.products|
    ensures forall h :: h in Hits(db, q, n) <==>
      h.product < n && Considered(db, db.products[h.product], q.hint)
      && StandsFor(db, q, |db.products[h.product].hostnamePatterns|, h)
    ensures forall i, j :: 0 <= i <= j < |Hits(db, q, n)| ==> Hits(db, q, n)[i].product <= Hits(db, q, n)[j].product
  {
    HitsComeFrom(db, q, n);
    forall h: Hit | h.product < n
      ensures Eligible(db, db.products[h.product], q.hint) <==> Considered(db, db.products[h.product], q.hint)
      ensures HitByPattern(db, q, h.product, |db.products[h.product].hostnamePatterns|, h)
        <==> StandsFor(db, q, |db.products[h.product].hostnamePatterns|, h)
    {
      AgreesExactly(db, db.products[h.product], q.hint);
      StandsForExactly(db, q, |db.products[h.product].hostnamePatterns|, h);
    }
  }

  method MatchProduct(db: Database, hostname: string, vendorHint: Option<string>, ports: seq<nat>) returns (r: Option<Product>)
    ensures r == Matched(db, Query(Lower(hostname), Lower(vendorHint.GetOr("")), ports))
  {
    var q := Query(Lower(hostname), Lower(vendorHint.GetOr("")), ports);
    var clean := StripSuffix(q.host);
    var best: Option<Hit> := None;
    for i := 0 to |db.products|
      invariant best == Best(Hits(db, q, i))
    {
      var product := db.products[i];
      var agrees := VendorAgrees(db, product, q.hint);
      if q.hint != "" && !agrees && (product.vendorId == "generic_switch" || !("generic" <= product.vendorId)) {
        assert Hits(db, q, i) + [] == Hits(db, q, i);
        continue;
      }
      best := ScanPatterns(db, q, clean, i, Hits(db, q, i), best);
    }
    if best.Some? {
      HitsAre(db, q, |db.products|);
      ghost var hits := Hits(db, q, |db.products|);
      ghost var k := BestIsFirstGreatest(hits);
      assert hits[k] in hits;
      return Some(db.products[best.value.product]);
    }
    for i := 0 to |db.products|
      invariant FirstByPort(db.products, q) == FirstByPort(db.products[i..], q)
    {
      if PortCue(q, db.products[i]) {
        return Some(db.products[i]);
      }
    }
    return None;
  }

  /** Goes through the patterns of one product, keeping the best hit so far. */
  method ScanPatterns(db: Database, q: Query, clean: string, i: nat, ghost before: seq<Hit>, best0: Option<Hit>)
    returns (best: Option<Hit>)
    requires i < |db.products| && clean == Stripped(q.host, LOCAL_SUFFIXES) && best0 == Best(before)
    ensures best == Best(before + PatternHits(db, q, i, |db.products[i].hostnamePatterns|))
  {
    var product := db.products[i];
    var agrees := VendorAgrees(db, product, q.hint);
    best := best0;
    assert before + [] == before;
    for k := 0 to |product.hostnamePatterns|
      invariant best == Best(before + PatternHits(db, q, i, k))
    {
      var pat := Lower(product.hostnamePatterns[k]);
      ghost var soFar := before + PatternHits(db, q, i, k);
      if pat != "" && PatternMatches(q.host, clean, pat) {
        var h := Hit(i, |pat|, agrees);
        if best.None? || Better(h, best.value) {
          best := Some(h);
        }
        assert before + PatternHits(db, q, i, k + 1) == soFar + [h];
        assert (soFar + [h])[..|soFar|] == soFar;
      } else {
        assert before + PatternHits(db, q, i, k + 1) == soFar;
      }
    }
  }

  method StripSuffix(host: string) returns (clean: string)
    ensures clean == Stripped(host, LOCAL_SUFFIXES)
  {
    clean := host;
    for i := 0 to |LOCAL_SUFFIXES|
      invariant clean == host && Stripped(host, LOCAL_SUFFIXES) == Stripped(host, LOCAL_SUFFIXES[i..])
    {
      if EndsWith(host, LOCAL_SUFFIXES[i]) {
        return host[..|host| - |LOCAL_SUFFIXES[i]|];
      }
    }
  }

  /** `hits[i]` agrees with the vendor if any hit does, is the longest of those that agree as it does, and the first. */
  ghost predicate FirstGreatest(hits: seq<Hit>, i: int) {
    && 0 <= i < |hits|
    && (forall j :: 0 <= j < |hits| && hits[j].agrees ==> hits[i].agrees)
    && (forall j :: 0 <= j < |hits| && hits[j].agrees == hits[i].agrees ==> hits[j].score <= hits[i].score)
    && (forall j :: 0 <= j < i && hits[j].agrees == hits[i].agrees ==> hits[j].score < hits[i].score)
  }

  lemma {:induction false} BestIsFirstGreatest(hits: seq<Hit>) returns (i: int)
    requires hits != []
    ensures FirstGreatest(hits, i) && Best(hits) == Some(hits[i])
  {
    var n := |hits| - 1;
    var init := hits[..n];
    if n == 0 {
      i := 0;
    } else {
      i := BestIsFirstGreatest(init);
      assert forall j :: 0 <= j < n ==> hits[j] == init[j];
      if Better(hits[n], init[i]) {
        i := n;
      }
    }
  }

  /** Two indices that are both first among the greatest are the same. */
  lemma FirstGreatestIsUnique(hits: seq<Hit>, i: int, j: int)
    requires FirstGreatest(hits, i) && FirstGreatest(hits, j)
    ensures i == j
  {
    assert hits[i].agrees == hits[j].agrees && hits[i].score == hits[j].score;
  }

  /** The vendor is the hinted one, and a default port of the product is open. */
  ghost predicate HasCue(q: Query, p: Product) {
    q.hint != "" && Lower(p.vendorId) == Lower(q.hint) && exists port: nat :: port in p.defaultPorts && port in q.ports
  }

  lemma CueExactly(q: Query, p: Product)
    ensures PortCue(q, p) <==> HasCue(q, p)
  {
  }

  lemma {:induction false} FirstByPortIsFirst(products: seq<Product>, q: Query)
    ensures match FirstByPort(products, q)
      case None => forall i :: 0 <= i < |products| ==> !HasCue(q, products[i])
      case Some(p) => exists i :: 0 <= i < |products| && products[i] == p && HasCue(q, p)
                               && forall j :: 0 <= j < i ==> !HasCue(q, products[j])
  {
    if products != [] {
      CueExactly(q, products[0]);
      if !PortCue(q, products[0]) {
        var rest := products[1..];
        FirstByPortIsFirst(rest, q);
        assert forall j :: 1 <= j < |products| ==> products[j] == rest[j - 1];
        if FirstByPort(rest, q).Some? {
          var i :| 0 <= i < |rest| && rest[i] == FirstByPort(rest, q).value && HasCue(q, rest[i])
            && forall j :: 0 <= j < i ==> !HasCue(q, rest[j]);
          assert products[i + 1] == rest[i];
        }
      }
    }
  }

  /**
   For every catalogue: if some pattern of an eligible product matches, the result is the product of the
   one hit that is greatest by (vendor agreement, pattern length) and the earliest on ties; only if none
   matches is it the first product of the hinted vendor with an open default port.
   */
  lemma MatchedIsBestHit(db: Database, q: Query)
    ensures var hits := Hits(db, q, |db.products|);
      if hits != [] then
        && (exists i :: FirstGreatest(hits, i))
        && (forall i :: FirstGreatest(hits, i) ==>
              hits[i].product < |db.products| && Matched(db, q) == Some(db.products[hits[i].product]))
        && (forall i, j :: FirstGreatest(hits, i) && FirstGreatest(hits, j) ==> i == j)
      else
        Matched(db, q) == FirstByPort(db.products, q)
  {
    var hits := Hits(db, q, |db.products|);
    HitsAre(db, q, |db.products|);
    if hits != [] {
      var i := BestIsFirstGreatest(hits);
      assert hits[i] in hits;
      forall j, k | FirstGreatest(hits, j) && FirstGreatest(hits, k) ensures j == k {
        FirstGreatestIsUnique(hits, j, k);
      }
    }
  }

  // ---- Merging catalogues

  function Replacing<T>(items: seq<T>, idOf: T -> string, x: T): seq<T> {
    if items == [] then [x]
    else if idOf(items[0]) == idOf(x) then [x] + items[1..]
    else [items[0]] + Replacing(items[1..], idOf, x)
  }

  function MergedItems<T>(items: seq<T>, idOf: T -> string, others: seq<T>): seq<T> {
    if others == [] then items
    else Replacing(MergedItems(items, idOf, others[..|others| - 1]), idOf, others[|others| - 1])
  }

  function VendorId(v: Vendor): string { v.id }

  function ProductId(p: Product): string { p.id }

  class CatalogDatabase {
    var vendors: seq<Vendor>
    var products: seq<Product>

    constructor (db: Database)
      ensures vendors == db.vendors && products == db.products
    {
      vendors, products := db.vendors, db.products;
    }

    method AddOrUpdateVendor(vendor: Vendor)
      modifies this`vendors
      ensures vendors == Replacing(old(vendors), VendorId, vendor)
    {
      var i := FindIndex(vendors, VendorId, vendor);
      vendors := if i < |vendors| then vendors[i := vendor] else vendors + [vendor];
    }

    method AddOrUpdateProduct(product: Product)
      modifies this`products
      ensures products == Replacing(old(products), ProductId, product)
    {
      var i := FindIndex(products, ProductId, product);
      products := if i < |products| then products[i := product] else products + [product];
    }

    method Merge(other: Database)
      modifies this
      ensures vendors == MergedItems(old(vendors), VendorId, other.vendors)
      ensures products == MergedItems(old(products), ProductId, other.products)
    {
      assert other.vendors[..0] == [] && other.products[..0] == [];
      for i := 0 to |other.vendors|
        invariant vendors == MergedItems(old(vendors), VendorId, other.vendors[..i]) && products == old(products)
      {
        assert other.vendors[..i + 1][..i] == other.vendors[..i];
        AddOrUpdateVendor(other.vendors[i]);
      }
      assert other.vendors[..|other.vendors|] == other.vendors;
      for i := 0 to |other.products|
        invariant vendors == MergedItems(old(vendors), VendorId, other.vendors)
        invariant products == MergedItems(old(products), ProductId, other.products[..i])
      {
        assert other.products[..i + 1][..i] == other.products[..i];
        AddOrUpdateProduct(other.products[i]);
      }
      assert other.products[..|other.products|] == other.products;
    }
  }

  /** The position of the first item with the id of `x`, or the length. */
  method FindIndex<T>(items: seq<T>, idOf: T -> string, x: T) returns (i: nat)
    ensures i <= |items|
    ensures Replacing(items, idOf, x) == if i < |items| then items[i := x] else items + [x]
  {
    i := 0;
    while i < |items| && idOf(items[i]) != idOf(x)
      invariant i <= |items|
      invariant Replacing(items, idOf, x) == items[..i] + Replacing(items[i..], idOf, x)
    {
      i := i + 1;
    }
  }

  function Ids<T>(items: seq<T>, idOf: T -> string): (r: seq<string>)
    ensures |r| == |items|
  {
    seq(|items|, i requires 0 <= i < |items| => idOf(items[i]))
  }

  /** The last item with an id. */
  function LastWith<T>(items: seq<T>, idOf: T -> string, id: string): Option<T> {
    if items == [] then None
    else if idOf(items[|items| - 1]) == id then Some(items[|items| - 1])
    else LastWith(items[..|items| - 1], idOf, id)
  }

  /** No earlier item has the id of item `i`. */
  predicate FirstWith(ids: seq<string>, i: nat) {
    i < |ids| && forall j :: 0 <= j < i ==> ids[j] != ids[i]
  }

  lemma {:induction false} ReplacingKeepsIds<T>(items: seq<T>, idOf: T -> string, x: T)
    ensures var ids := Ids(items, idOf);
      Ids(Replacing(items, idOf, x), idOf) == if idOf(x) in ids then ids else ids + [idOf(x)]
  {
    if items != [] {
      assert Ids(items, idOf) == [idOf(items[0])] + Ids(items[1..], idOf);
      if idOf(items[0]) != idOf(x) {
        ReplacingKeepsIds(items[1..], idOf, x);
        var rest := Replacing(items[1..], idOf, x);
        assert Ids([items[0]] + rest, idOf) == [idOf(items[0])] + Ids(rest, idOf);
      }
    }
  }

  /** Replacing changes the first item with the id and nothing else, or adds an item at the end. */
  lemma {:induction false} ReplacedAt<T>(items: seq<T>, idOf: T -> string, x: T, i: nat)
    requires i < |Replacing(items, idOf, x)|
    ensures var r := Replacing(items, idOf, x);
      if idOf(r[i]) == idOf(x) && FirstWith(Ids(r, idOf), i) then r[i] == x
      else i < |items| && r[i] == items[i]
  {
    var r := Replacing(items, idOf, x);
    var ids := Ids(r, idOf);
    assert ids[0] == idOf(r[0]) && ids[i] == idOf(r[i]);
    if i > 0 && idOf(items[0]) != idOf(x) {
      var rest := Replacing(items[1..], idOf, x);
      ReplacedAt(items[1..], idOf, x, i - 1);
      assert ids[1..] == Ids(rest, idOf);
      if idOf(r[i]) == idOf(x) {
        FirstWithTail(ids, i);
      }
    }
  }

  lemma FirstWithTail(ids: seq<string>, i: nat)
    requires 1 <= i < |ids| && ids[0] != ids[i]
    ensures FirstWith(ids, i) <==> FirstWith(ids[1..], i - 1)
  {
    assert forall j :: 1 <= j < |ids| ==> ids[j] == ids[1..][j - 1];
  }

  /** Under every id the last entry of `others` has replaced the first entry of `items` that had it. */
  ghost predicate LastWins<T(!new)>(items: seq<T>, idOf: T -> string, others: seq<T>, r: seq<T>) {
    forall i :: 0 <= i < |r| ==>
      match LastWith(others, idOf, idOf(r[i]))
      case Some(x) => if FirstWith(Ids(r, idOf), i) then r[i] == x else i < |items| && r[i] == items[i]
      case None => i < |items| && r[i] == items[i]
  }

  lemma ReplacingKeepsLastWins<T(!new)>(items: seq<T>, idOf: T -> string, others: seq<T>, mid: seq<T>)
    requires others != [] && LastWins(items, idOf, others[..|others| - 1], mid)
    ensures LastWins(items, idOf, others, Replacing(mid, idOf, others[|others| - 1]))
  {
    var x := others[|others| - 1];
    var r := Replacing(mid, idOf, x);
    ReplacingKeepsIds(mid, idOf, x);
    forall i: nat | i < |r|
      ensures if idOf(r[i]) == idOf(x) && FirstWith(Ids(r, idOf), i) then r[i] == x else i < |mid| && r[i] == mid[i]
    {
      ReplacedAt(mid, idOf, x, i);
    }
    forall i: nat | i < |mid| ensures FirstWith(Ids(r, idOf), i) <==> FirstWith(Ids(mid, idOf), i) {
      assert forall j :: 0 <= j <= i ==> Ids(r, idOf)[j] == Ids(mid, idOf)[j];
    }
  }

  /** Merging keeps the ids in place and adds those that were missing; distinct ids stay distinct. */
  lemma {:induction false} MergedKeepsIds<T>(items: seq<T>, idOf: T -> string, others: seq<T>)
    ensures var before, after := Ids(items, idOf), Ids(MergedItems(items, idOf, others), idOf);
      && before <= after && (NoDuplicates(before) ==> NoDuplicates(after))
      && (forall id :: id in after <==> id in before || id in Ids(others, idOf))
      && ((forall id :: id in Ids(others, idOf) ==> id in before) ==> after == before)
  {
    if others != [] {
      var n := |others| - 1;
      MergedKeepsIds(items, idOf, others[..n]);
      ReplacingKeepsIds(MergedItems(items, idOf, others[..n]), idOf, others[n]);
      assert Ids(others, idOf) == Ids(others[..n], idOf) + [idOf(others[n])];
    }
  }

  /** Under every id the last entry of the other catalogue wins over the first entry that had it. */
  lemma {:induction false} MergedLastWins<T(!new)>(items: seq<T>, idOf: T -> string, others: seq<T>)
    ensures LastWins(items, idOf, others, MergedItems(items, idOf, others))
  {
    if others != [] {
      MergedLastWins(items, idOf, others[..|others| - 1]);
      ReplacingKeepsLastWins(items, idOf, others, MergedItems(items, idOf, others[..|others| - 1]));
    }
  }

  /** Merging the same catalogue twice is merging it once. */
  lemma MergingIsIdempotent<T(!new)>(items: seq<T>, idOf: T -> string, others: seq<T>)
    ensures var once := MergedItems(items, idOf, others);
      MergedItems(once, idOf, others) == once
  {
    var once := MergedItems(items, idOf, others);
    var twice := MergedItems(once, idOf, others);
    MergedLastWins(items, idOf, others);
    MergedLastWins(once, idOf, others);
    MergedKeepsIds(items, idOf, others);
    MergedKeepsIds(once, idOf, others);
    forall i | 0 <= i < |once| ensures twice[i] == once[i] {
      assert Ids(twice, idOf)[i] == Ids(once, idOf)[i];
    }
  }
}
