/** Uploading release assets to a remote draft that others may change, binding
    each by identity, and compensating only what was bound. */
module ReleaseUpload {
  import opened Bytes

  // --------------------------------------------------------------- the asset listing

  datatype RawAsset = RawAsset(id: Bytes, name: Bytes, url: Bytes, digest: Bytes, size: nat) | Incomplete

  datatype Asset = Asset(id: Bytes, name: Bytes, path: Bytes, digest: Bytes, size: nat)

  const URL_PREFIX: Bytes := Ascii("https://api.github.com/repos/rogu3bear/cfctl/releases/assets/")
  const PATH_PREFIX: Bytes := Ascii("repos/rogu3bear/cfctl/releases/assets/")

  /** The API path of an asset of the canonical repository. */
  function ApiPath(url: Bytes): Option<Bytes> {
    if URL_PREFIX <= url && |url| > |URL_PREFIX| && forall i | |URL_PREFIX| <= i < |url| :: 48 <= url[i] <= 57
    then Some(PATH_PREFIX + url[|URL_PREFIX|..])
    else None
  }

  /** The number of an asset, as it is written. */
  predicate Number(digits: Bytes) {
    digits != [] && forall i | 0 <= i < |digits| :: '0' as int <= digits[i] <= '9' as int
  }

  lemma NumberHasPath(digits: Bytes)
    ensures ApiPath(URL_PREFIX + digits) == if Number(digits) then Some(PATH_PREFIX + digits) else None
  {
    var url, n := URL_PREFIX + digits, |URL_PREFIX|;
    assert url[n..] == digits;
    if Number(digits) {
      forall i | n <= i < |url| ensures 48 <= url[i] <= 57 {
        assert url[i] == digits[i - n];
      }
    } else if digits != [] {
      var i :| 0 <= i < |digits| && !('0' as int <= digits[i] <= '9' as int);
      assert url[n + i] == digits[i];
    }
  }

  /** Exactly the addresses of this repository's release assets have a path. */
  lemma ApiPathExactly(url: Bytes, path: Bytes)
    ensures ApiPath(url) == Some(path) <==>
              exists digits :: Number(digits) &&
                url == Ascii("https://api.github.com/repos/rogu3bear/cfctl/releases/assets/") + digits &&
                path == Ascii("repos/rogu3bear/cfctl/releases/assets/") + digits
  {
    hide Ascii, Number;
    if ApiPath(url) == Some(path) {
      assert url == URL_PREFIX + url[|URL_PREFIX|..];
      hide ApiPath;
      NumberHasPath(url[|URL_PREFIX|..]);
    }
    if digits :| Number(digits) && url == URL_PREFIX + digits && path == PATH_PREFIX + digits {
      hide ApiPath;
      NumberHasPath(digits);
    }
  }

  function Parse(raw: RawAsset): Option<Asset> {
    if raw.Incomplete? || ApiPath(raw.url).None? then None
    else Some(Asset(raw.id, raw.name, ApiPath(raw.url).value, raw.digest, raw.size))
  }

  /** What the remote says of the asset. */
  predicate Identifies(raw: RawAsset, a: Asset) {
    && raw.RawAsset? && a.id == raw.id && a.name == raw.name && a.digest == raw.digest && a.size == raw.size
    && ApiPath(raw.url) == Some(a.path)
  }

  lemma ParseExactly(raw: RawAsset)
    ensures Parse(raw).Some? <==> raw.RawAsset? && ApiPath(raw.url).Some?
    ensures Parse(raw).Some? ==> Identifies(raw, Parse(raw).value)
  {
    hide ApiPath;
  }

  function ParseAll(raws: seq<RawAsset>): (r: Option<seq<Asset>>)
    ensures r.Some? <==> forall i | 0 <= i < |raws| :: Parse(raws[i]).Some?
    ensures r.Some? ==> |r.value| == |raws| && forall i | 0 <= i < |raws| :: r.value[i] == Parse(raws[i]).value
  {
    if raws == [] then Some([])
    else
      var first, rest := Parse(raws[0]), ParseAll(raws[1..]);
      if first.None? || rest.None? then None else Some([first.value] + rest.value)
  }

  /** Byte-wise order of names. */
  predicate Before(a: Bytes, b: Bytes) {
    b != [] && (a == [] || a[0] < b[0] || (a[0] == b[0] && Before(a[1..], b[1..])))
  }

  lemma {:induction false} BeforeIsStrictOrder(a: Bytes, b: Bytes, c: Bytes)
    ensures !Before(a, a)
    ensures Before(a, b) || a == b || Before(b, a)
    ensures Before(a, b) && Before(b, c) ==> Before(a, c)
    ensures !(Before(a, b) && Before(b, a))
  {
    if a != [] && b != [] {
      BeforeIsStrictOrder(a[1..], b[1..], if c == [] then [] else c[1..]);
      assert a == [a[0]] + a[1..] && b == [b[0]] + b[1..];
    } else if a != [] {
      BeforeIsStrictOrder(a[1..], [], []);
    }
  }

  /** `a` is a proper beginning of `b`, or smaller at the first byte in which they differ. */
  predicate Smaller(a: Bytes, b: Bytes) {
    a < b || exists i | 0 <= i < |a| && i < |b| :: a[..i] == b[..i] && a[i] < b[i]
  }

  lemma SmallerHead(a: Bytes, b: Bytes)
    requires a != [] && b != [] && a[0] != b[0]
    ensures Smaller(a, b) <==> a[0] < b[0]
  {
    assert a[..0] == b[..0];
    forall i | 0 < i < |a| && i < |b| ensures a[..i] != b[..i] {
      assert a[..i][0] == a[0] && b[..i][0] == b[0];
    }
  }

  lemma SmallerTail(a: Bytes, b: Bytes)
    requires a != [] && b != [] && a[0] == b[0]
    ensures Smaller(a, b) <==> Smaller(a[1..], b[1..])
  {
    var x, y := a[1..], b[1..];
    assert a == [a[0]] + x && b == [b[0]] + y;
    if i :| 0 <= i < |x| && i < |y| && x[..i] == y[..i] && x[i] < y[i] {
      assert a[..i + 1] == [a[0]] + x[..i] && b[..i + 1] == [b[0]] + y[..i];
      assert a[i + 1] < b[i + 1];
    }
    if i :| 0 <= i < |a| && i < |b| && a[..i] == b[..i] && a[i] < b[i] {
      assert x[..i - 1] == a[..i][1..] && y[..i - 1] == b[..i][1..];
      assert x[i - 1] < y[i - 1];
    }
  }

  lemma {:induction false} BeforeIsSmaller(a: Bytes, b: Bytes)
    ensures Before(a, b) <==> Smaller(a, b)
  {
    if a != [] && b != [] {
      if a[0] == b[0] {
        BeforeIsSmaller(a[1..], b[1..]);
        SmallerTail(a, b);
      } else {
        SmallerHead(a, b);
      }
    }
  }

  function Insert(a: Asset, s: seq<Asset>): seq<Asset> {
    if s != [] && Before(s[0].name, a.name) then [s[0]] + Insert(a, s[1..]) else [a] + s
  }

  /** A stable sort by name. */
  function Sort(s: seq<Asset>): seq<Asset> {
    if s == [] then [] else Insert(s[0], Sort(s[1..]))
  }

  /** The source's `release_assets`. */
  function Listing(raws: seq<RawAsset>): Option<seq<Asset>> {
    var parsed := ParseAll(raws);
    if parsed.None? then None else Some(Sort(parsed.value))
  }

  /** Names strictly increasing. */
  predicate Ordered(s: seq<Asset>) {
    forall i, j | 0 <= i < j < |s| :: Before(s[i].name, s[j].name)
  }

  lemma {:induction false} InsertKeeps(a: Asset, s: seq<Asset>)
    ensures multiset(Insert(a, s)) == multiset(s) + multiset{a}
  {
    if s != [] && Before(s[0].name, a.name) {
      InsertKeeps(a, s[1..]);
      assert s == [s[0]] + s[1..];
    }
  }

  lemma {:induction false} SortKeeps(s: seq<Asset>)
    ensures multiset(Sort(s)) == multiset(s)
  {
    if s != [] {
      SortKeeps(s[1..]);
      InsertKeeps(s[0], Sort(s[1..]));
      assert s == [s[0]] + s[1..];
    }
  }

  predicate NewName(a: Asset, s: seq<Asset>) {
    forall i | 0 <= i < |s| :: s[i].name != a.name
  }

  /** Inserting into a list keeps everything after a name that comes first. */
  lemma InsertStaysAfter(first: Bytes, a: Asset, s: seq<Asset>)
    requires Before(first, a.name) && forall j | 0 <= j < |s| :: Before(first, s[j].name)
    ensures forall j | 0 <= j < |Insert(a, s)| :: Before(first, Insert(a, s)[j].name)
  {
    var rest := Insert(a, s);
    InsertKeeps(a, s);
    forall j | 0 <= j < |rest| ensures Before(first, rest[j].name) {
      assert rest[j] in multiset(rest);
      assert rest[j] == a || rest[j] in multiset(s);
    }
  }

  lemma {:induction false} InsertOrders(a: Asset, s: seq<Asset>)
    requires Ordered(s) && NewName(a, s)
    ensures Ordered(Insert(a, s))
  {
    if s != [] && Before(s[0].name, a.name) {
      hide Before;
      InsertOrders(a, s[1..]);
      InsertStaysAfter(s[0].name, a, s[1..]);
    } else if s != [] {
      hide Before;
      BeforeIsStrictOrder(s[0].name, a.name, []);
      forall j | 0 <= j < |s| ensures Before(a.name, s[j].name) {
        BeforeIsStrictOrder(a.name, s[0].name, s[j].name);
      }
    }
  }

  predicate DistinctNames(s: seq<Asset>) {
    forall i, j | 0 <= i < j < |s| :: s[i].name != s[j].name
  }

  lemma {:induction false} SortOrders(s: seq<Asset>)
    requires DistinctNames(s)
    ensures Ordered(Sort(s))
  {
    if s != [] {
      SortOrders(s[1..]);
      SortKeeps(s[1..]);
      var rest := Sort(s[1..]);
      forall i | 0 <= i < |rest| ensures rest[i].name != s[0].name {
        assert rest[i] in multiset(rest);
        assert rest[i] in s[1..];
      }
      InsertOrders(s[0], rest);
    }
  }

  lemma HeadsAgree(s: seq<Asset>, t: seq<Asset>)
    requires Ordered(s) && Ordered(t) && multiset(s) == multiset(t) && s != []
    ensures t != [] && s[0] == t[0]
  {
    hide Before;
    assert s[0] in multiset(t);
    assert t != [] && t[0] in multiset(s);
    var i :| 0 <= i < |t| && t[i] == s[0];
    var j :| 0 <= j < |s| && s[j] == t[0];
    if i > 0 && j > 0 {
      BeforeIsStrictOrder(s[0].name, t[0].name, []);
    }
  }

  /** Lists in name order with the same elements are the same list. */
  lemma {:induction false} OrderedIsUnique(s: seq<Asset>, t: seq<Asset>)
    requires Ordered(s) && Ordered(t) && multiset(s) == multiset(t)
    ensures s == t
  {
    if s == [] {
      assert |t| == |multiset(t)|;
    } else {
      HeadsAgree(s, t);
      assert s == [s[0]] + s[1..] && t == [t[0]] + t[1..];
      assert multiset(s[1..]) == multiset(s) - multiset{s[0]};
      assert multiset(t[1..]) == multiset(t) - multiset{t[0]};
      OrderedIsUnique(s[1..], t[1..]);
    }
  }

  /** However the remote orders its assets, the listing is the bound list when the
      same assets are there and the bound list is in ascending order of names; and
      only then. */
  lemma ListingIsCanonical(s: seq<Asset>, bound: seq<Asset>)
    requires DistinctNames(s) && multiset(s) == multiset(bound)
    ensures Sort(s) == bound <==> Ordered(bound)
    ensures Sort(s) == bound <==> forall i, j | 0 <= i < j < |bound| :: Smaller(bound[i].name, bound[j].name)
  {
    hide Before, Smaller;
    forall i, j | 0 <= i < j < |bound|
      ensures Before(bound[i].name, bound[j].name) <==> Smaller(bound[i].name, bound[j].name)
    {
      BeforeIsSmaller(bound[i].name, bound[j].name);
    }
    SortOrders(s);
    SortKeeps(s);
    if Ordered(bound) {
      OrderedIsUnique(Sort(s), bound);
    }
  }

  // ------------------------------------------------------------------- the protocol

  datatype Release = Release(id: Bytes, tag: Bytes, isDraft: bool, assets: seq<RawAsset>)

  /** The source's `validate_bound_draft_release`: the assets shown, if the release is
      still the bound draft and every asset is identified. */
  function Shown(r: Release, id: Bytes, tag: Bytes): Option<seq<Asset>> {
    if !r.isDraft || r.id != id || r.tag != tag then None else Listing(r.assets)
  }

  /** The bound draft shows every asset the remote has, each identified by what the
      remote says of it; and nothing is shown of a release that is not the bound draft
      or has an asset it cannot identify. */
  lemma ShownExactly(r: Release, id: Bytes, tag: Bytes)
    ensures Shown(r, id, tag).Some? <==>
              r.isDraft && r.id == id && r.tag == tag &&
              forall i | 0 <= i < |r.assets| :: r.assets[i].RawAsset? && ApiPath(r.assets[i].url).Some?
    ensures Shown(r, id, tag).Some? ==> exists s: seq<Asset> ::
              && |s| == |r.assets| && multiset(s) == multiset(Shown(r, id, tag).value)
              && forall i | 0 <= i < |s| :: Identifies(r.assets[i], s[i])
  {
    hide Parse, ApiPath, Sort;
    forall i | 0 <= i < |r.assets|
      ensures Parse(r.assets[i]).Some? <==> r.assets[i].RawAsset? && ApiPath(r.assets[i].url).Some?
      ensures Parse(r.assets[i]).Some? ==> Identifies(r.assets[i], Parse(r.assets[i]).value)
    {
      ParseExactly(r.assets[i]);
    }
    if Shown(r, id, tag).Some? {
      SortKeeps(ParseAll(r.assets).value);
    }
  }

  /** A verified artifact, and what is found on disk when it is uploaded. */
  datatype Artifact = Artifact(name: Option<Bytes>, digest: Bytes, size: nat, foundDigest: Bytes, foundSize: nat)

  function RecordedDigest(digest: Bytes): Bytes {
    Ascii("sha256:") + digest
  }

  predicate BindsTo(a: Asset, artifact: Artifact) {
    artifact.name == Some(a.name) && a.digest == RecordedDigest(artifact.digest) && a.size == artifact.size
  }

  /** No two assets of the remote share a name, an identity or a path. */
  predicate Distinct(s: seq<Asset>) {
    forall i, j | 0 <= i < j < |s| :: s[i].name != s[j].name && s[i].id != s[j].id && s[i].path != s[j].path
  }

  predicate WellFormed(raws: seq<RawAsset>) {
    ParseAll(raws).Some? && Distinct(ParseAll(raws).value)
  }

  function Without(raws: seq<RawAsset>, path: Bytes): seq<RawAsset> {
    if raws == [] then []
    else if Parse(raws[0]).Some? && Parse(raws[0]).value.path == path then Without(raws[1..], path)
    else [raws[0]] + Without(raws[1..], path)
  }

  /** One delete request, with what the last read before it showed. */
  datatype Compensation = Compensation(path: Bytes, seen: Option<seq<Asset>>)

  /** One upload request, with what the last read before it showed. */
  datatype Uploading = Uploading(artifact: Artifact, seen: Option<seq<Asset>>)

  /** The requests that undo the last `k` of the bound assets, last first, each with
      exactly the assets bound up to it in sight. */
  function Compensations(bound: seq<Asset>, k: nat): (r: seq<Compensation>)
    requires k <= |bound|
    ensures |r| == k
  {
    seq(k, i requires 0 <= i < k => Compensation(bound[|bound| - 1 - i].path, Some(bound[..|bound| - i])))
  }

  /** The assets named `name`. */
  function Named(s: seq<Asset>, name: Bytes): seq<Asset> {
    if s == [] then [] else (if s[0].name == name then [s[0]] else []) + Named(s[1..], name)
  }

  /** The source's `bind_new_uploaded_asset`. */
  function BindNew(shown: seq<Asset>, name: Bytes, digest: Bytes, size: nat, known: seq<Asset>): Option<Asset> {
    var matching := Named(shown, name);
    if |matching| != 1 || (exists i | 0 <= i < |known| :: known[i].id == matching[0].id) ||
       matching[0].digest != RecordedDigest(digest) || matching[0].size != size
    then None else Some(matching[0])
  }

  lemma {:induction false} NamedHasName(s: seq<Asset>, name: Bytes)
    ensures forall i | 0 <= i < |Named(s, name)| :: Named(s, name)[i].name == name && Named(s, name)[i] in s
  {
    if s != [] {
      NamedHasName(s[1..], name);
    }
  }

  lemma {:induction false} NamedIsOne(s: seq<Asset>, k: nat)
    requires k < |s| && forall i | 0 <= i < |s| && i != k :: s[i].name != s[k].name
    ensures Named(s, s[k].name) == [s[k]]
  {
    if k == 0 {
      NamedIsNone(s[1..], s[0].name);
    } else {
      NamedIsOne(s[1..], k - 1);
    }
  }

  lemma {:induction false} NamedIsNone(s: seq<Asset>, name: Bytes)
    requires forall i | 0 <= i < |s| :: s[i].name != name
    ensures Named(s, name) == []
  {
    if s != [] {
      NamedIsNone(s[1..], name);
    }
  }

  lemma {:induction false} NoneIsNamed(s: seq<Asset>, name: Bytes)
    requires Named(s, name) == []
    ensures forall i | 0 <= i < |s| :: s[i].name != name
  {
    if s != [] {
      NoneIsNamed(s[1..], name);
    }
  }

  lemma {:induction false} OneIsNamed(s: seq<Asset>, name: Bytes, a: Asset) returns (k: nat)
    requires Named(s, name) == [a]
    ensures k < |s| && s[k] == a && a.name == name && forall i | 0 <= i < |s| && i != k :: s[i].name != name
  {
    if s[0].name == name {
      var all := [s[0]] + Named(s[1..], name);
      assert all[0] == s[0] && all[1..] == Named(s[1..], name);
      NoneIsNamed(s[1..], name);
      k := 0;
    } else {
      assert [] + Named(s[1..], name) == Named(s[1..], name);
      k := OneIsNamed(s[1..], name, a);
      k := k + 1;
    }
  }

  /** An asset is bound exactly when it alone of all shown has the name, it has the
      digest and the size, and no known asset has its identity. */
  lemma BindNewExactly(shown: seq<Asset>, name: Bytes, digest: Bytes, size: nat, known: seq<Asset>, a: Asset)
    ensures BindNew(shown, name, digest, size, known) == Some(a) <==>
              && (exists k :: 0 <= k < |shown| && shown[k] == a && a.name == name &&
                              forall i | 0 <= i < |shown| && i != k :: shown[i].name != name)
              && a.digest == Ascii("sha256:") + digest && a.size == size
              && forall i | 0 <= i < |known| :: known[i].id != a.id
  {
    hide Ascii;
    if BindNew(shown, name, digest, size, known) == Some(a) {
      assert Named(shown, name) == [a];
      var k := OneIsNamed(shown, name, a);
    }
    if k :| 0 <= k < |shown| && shown[k] == a && a.name == name &&
            forall i | 0 <= i < |shown| && i != k :: shown[i].name != name {
      NamedIsOne(shown, k);
    }
  }

  function WithoutPath(s: seq<Asset>, path: Bytes): seq<Asset> {
    if s == [] then [] else (if s[0].path == path then [] else [s[0]]) + WithoutPath(s[1..], path)
  }

  /** `s` is what `raws` parse to, one by one. */
  predicate IsParse(raws: seq<RawAsset>, s: seq<Asset>) {
    |s| == |raws| && forall i | 0 <= i < |raws| :: Parse(raws[i]) == Some(s[i])
  }

  lemma ParseIs(raws: seq<RawAsset>, s: seq<Asset>)
    ensures IsParse(raws, s) <==> ParseAll(raws) == Some(s)
  {
    hide Parse;
    if IsParse(raws, s) {
      assert forall i | 0 <= i < |raws| :: Parse(raws[i]).Some?;
      assert ParseAll(raws).value == s;
    }
  }

  lemma IsParseCat(a: seq<RawAsset>, s: seq<Asset>, b: seq<RawAsset>, t: seq<Asset>)
    requires IsParse(a, s) && IsParse(b, t)
    ensures IsParse(a + b, s + t)
  {
    hide Parse;
  }

  lemma {:induction false} ParseWithout(raws: seq<RawAsset>, path: Bytes)
    requires ParseAll(raws).Some?
    ensures ParseAll(Without(raws, path)) == Some(WithoutPath(ParseAll(raws).value, path))
  {
    if raws != [] {
      var s := ParseAll(raws).value;
      ParseIs(raws, s);
      assert IsParse(raws[1..], s[1..]);
      ParseIs(raws[1..], s[1..]);
      ParseWithout(raws[1..], path);
      var rest, left := Without(raws[1..], path), WithoutPath(s[1..], path);
      ParseIs(rest, left);
      IsParseCat([raws[0]], [s[0]], rest, left);
      ParseIs([raws[0]] + rest, [s[0]] + left);
      assert [] + left == left;
    }
  }

  lemma {:induction false} WithoutOne(s: seq<Asset>, k: nat)
    requires k < |s| && Distinct(s)
    ensures WithoutPath(s, s[k].path) == s[..k] + s[k + 1..]
  {
    if k == 0 {
      WithoutNone(s[1..], s[0].path);
    } else {
      WithoutOne(s[1..], k - 1);
      assert s[..k] == [s[0]] + s[1..][..k - 1] && s[k + 1..] == s[1..][k..];
    }
  }

  lemma {:induction false} WithoutNone(s: seq<Asset>, path: Bytes)
    requires forall i | 0 <= i < |s| :: s[i].path != path
    ensures WithoutPath(s, path) == s
  {
    if s != [] {
      WithoutNone(s[1..], path);
    }
  }

  /** Deleting the last bound asset leaves the listing at the bound list before it. */
  lemma DeleteShows(raws: seq<RawAsset>, bound: seq<Asset>)
    requires WellFormed(raws) && Listing(raws) == Some(bound) && bound != []
    ensures var left := Without(raws, bound[|bound| - 1].path);
            WellFormed(left) && Listing(left) == Some(bound[..|bound| - 1])
  {
    hide ParseAll, Sort, Without, WithoutPath, Before, Ordered;
    var s, last := ParseAll(raws).value, bound[|bound| - 1];
    SortOrders(s);
    SortKeeps(s);
    assert last in multiset(bound);
    var k :| 0 <= k < |s| && s[k] == last;
    ParseWithout(raws, last.path);
    WithoutOne(s, k);
    DropLast(s, k, bound);
  }

  lemma DropLast(s: seq<Asset>, k: nat, bound: seq<Asset>)
    requires Distinct(s) && multiset(s) == multiset(bound) && Ordered(bound)
    requires k < |s| && bound != [] && s[k] == bound[|bound| - 1]
    ensures Distinct(s[..k] + s[k + 1..]) && Sort(s[..k] + s[k + 1..]) == bound[..|bound| - 1]
  {
    hide Sort, Before;
    var left, front := s[..k] + s[k + 1..], bound[..|bound| - 1];
    LessOne(s, k);
    LessOne(bound, |bound| - 1);
    assert bound[..|bound| - 1] + bound[|bound|..] == front;
    DistinctLeft(s, k);
    ListingIsCanonical(left, front);
  }

  lemma LessOne(s: seq<Asset>, k: nat)
    requires k < |s|
    ensures multiset(s[..k] + s[k + 1..]) == multiset(s) - multiset{s[k]}
  {
    assert s == s[..k] + [s[k]] + s[k + 1..];
  }

  lemma DistinctLeft(s: seq<Asset>, k: nat)
    requires Distinct(s) && k < |s|
    ensures Distinct(s[..k] + s[k + 1..]) && DistinctNames(s[..k] + s[k + 1..])
  {
    var left := s[..k] + s[k + 1..];
    assert forall i | 0 <= i < |left| :: left[i] == s[if i < k then i else i + 1];
  }

  predicate Follows(bound: seq<Asset>, name: Bytes) {
    bound == [] || Before(bound[|bound| - 1].name, name)
  }

  /** An asset unlike any that is there. */
  predicate IsNew(s: seq<Asset>, a: Asset) {
    forall i | 0 <= i < |s| :: s[i].name != a.name && s[i].id != a.id && s[i].path != a.path
  }

  lemma InsertedDistinct(s: seq<Asset>, a: Asset, at: nat)
    requires Distinct(s) && IsNew(s, a) && at <= |s|
    ensures Distinct(s[..at] + [a] + s[at..]) && DistinctNames(s[..at] + [a] + s[at..])
  {
    var t := s[..at] + [a] + s[at..];
    assert forall i | 0 <= i < |t| && i != at :: t[i] == s[if i < at then i else i - 1];
  }

  lemma InsertedOne(s: seq<Asset>, a: Asset, at: nat)
    requires at <= |s|
    ensures multiset(s[..at] + [a] + s[at..]) == multiset(s) + multiset{a}
    ensures a in s[..at] + [a] + s[at..]
  {
    var t := s[..at] + [a] + s[at..];
    assert t[at] == a;
    LessOne(t, at);
    assert t[..at] + t[at + 1..] == s;
  }

  lemma ParseInserted(raws: seq<RawAsset>, raw: RawAsset, at: nat)
    requires at <= |raws| && ParseAll(raws).Some? && Parse(raw).Some?
    ensures var s := ParseAll(raws).value;
            ParseAll(raws[..at] + [raw] + raws[at..]) == Some(s[..at] + [Parse(raw).value] + s[at..])
  {
    hide Parse, ParseAll;
    var s := ParseAll(raws).value;
    ParseIs(raws, s);
    InsertParsed(raws, s, raw, Parse(raw).value, at);
    ParseIs(raws[..at] + [raw] + raws[at..], s[..at] + [Parse(raw).value] + s[at..]);
  }

  lemma InsertParsed(raws: seq<RawAsset>, s: seq<Asset>, raw: RawAsset, a: Asset, at: nat)
    requires IsParse(raws, s) && Parse(raw) == Some(a) && at <= |raws|
    ensures IsParse(raws[..at] + [raw] + raws[at..], s[..at] + [a] + s[at..])
  {
    hide Parse;
    var all, t := raws[..at] + [raw] + raws[at..], s[..at] + [a] + s[at..];
    forall i | 0 <= i < |all| ensures Parse(all[i]) == Some(t[i]) {
      if i > at {
        assert all[i] == raws[i - 1] && t[i] == s[i - 1];
      }
    }
  }

  /** A new asset, wherever the remote puts it, makes the listing the bound list with
      it at the end exactly when its name follows the last one. */
  lemma UploadShows(raws: seq<RawAsset>, raw: RawAsset, at: nat, bound: seq<Asset>)
    requires WellFormed(raws) && Listing(raws) == Some(bound) && at <= |raws|
    requires Parse(raw).Some? && IsNew(ParseAll(raws).value, Parse(raw).value)
    ensures var all, a := raws[..at] + [raw] + raws[at..], Parse(raw).value;
            && WellFormed(all) && Listing(all).Some?
            && Named(Listing(all).value, a.name) == [a]
            && (forall i | 0 <= i < |bound| :: bound[i].id != a.id)
            && (Listing(all) == Some(bound + [a]) <==> Follows(bound, a.name))
  {
    hide ParseAll, Parse, Sort, Before, Ordered, Named, Follows;
    var s, a := ParseAll(raws).value, Parse(raw).value;
    var t := s[..at] + [a] + s[at..];
    ParseInserted(raws, raw, at);
    SortOrders(s);
    SortKeeps(s);
    InsertedDistinct(s, a, at);
    InsertedOne(s, a, at);
    assert multiset(t) == multiset(bound + [a]);
    ListingIsCanonical(t, bound + [a]);
    OrderedAppend(bound, a);
    NamedInSorted(t, a);
    forall i | 0 <= i < |bound| ensures bound[i].id != a.id {
      assert bound[i] in multiset(bound);
    }
  }

  lemma NamedInSorted(t: seq<Asset>, a: Asset)
    requires DistinctNames(t) && a in t
    ensures Named(Sort(t), a.name) == [a]
  {
    SortOrders(t);
    SortKeeps(t);
    hide Sort, Before;
    assert a in multiset(t);
    var k :| 0 <= k < |Sort(t)| && Sort(t)[k] == a;
    OrderedIsDistinct(Sort(t));
    NamedIsOne(Sort(t), k);
  }

  lemma OrderedIsDistinct(s: seq<Asset>)
    requires Ordered(s)
    ensures DistinctNames(s)
  {
    forall i, j | 0 <= i < j < |s| ensures s[i].name != s[j].name {
      BeforeIsStrictOrder(s[i].name, s[j].name, []);
    }
  }

  lemma OrderedAppend(bound: seq<Asset>, a: Asset)
    requires Ordered(bound)
    ensures Ordered(bound + [a]) <==> Follows(bound, a.name)
  {
    if Follows(bound, a.name) && bound != [] {
      var last := bound[|bound| - 1];
      forall i | 0 <= i < |bound| ensures Before(bound[i].name, a.name) {
        BeforeIsStrictOrder(bound[i].name, last.name, a.name);
      }
    } else if bound != [] {
      assert (bound + [a])[|bound| - 1] == bound[|bound| - 1] && (bound + [a])[|bound|] == a;
    }
  }

  /** The deletes of one rollback: the last of the bound assets, last first; all of
      them when it reports no failure. */
  ghost predicate Undoes(before: seq<Compensation>, after: seq<Compensation>, bound: seq<Asset>, clean: bool) {
    exists k :: 0 <= k <= |bound| && after == before + Compensations(bound, k) && (clean ==> k == |bound|)
  }

  /** An upload is issued only for an artifact that is as verified, with exactly the
      bound assets in sight; without it there is no success. */
  ghost predicate Uploads(before: seq<Uploading>, after: seq<Uploading>, bound: seq<Asset>, artifact: Artifact,
                          ok: bool)
  {
    || (!ok && after == before)
    || (Undrifted(artifact) && after == before + [Uploading(artifact, Some(bound))])
  }

  /** The uploads of a publication: the first artifacts, one after another, each as
      verified and with exactly the assets bound to the ones before it in sight. */
  ghost predicate Issued(before: seq<Uploading>, after: seq<Uploading>, artifacts: seq<Artifact>, n: int) {
    && 0 <= n <= |artifacts| && |after| == |before| + n && before <= after
    && forall t | 0 <= t < n :: IssuedFor(after[|before|..][t], artifacts, t)
  }

  ghost predicate IssuedFor(u: Uploading, artifacts: seq<Artifact>, t: nat)
    requires t < |artifacts|
  {
    u.artifact == artifacts[t] && Undrifted(artifacts[t]) && u.seen.Some? && Matches(u.seen.value, artifacts[..t])
  }

  lemma NothingIssued(before: seq<Uploading>, artifacts: seq<Artifact>)
    ensures Issued(before, before, artifacts, 0)
  {
  }

  lemma IssuedOneMore(start: seq<Uploading>, before: seq<Uploading>, after: seq<Uploading>, artifacts: seq<Artifact>,
                      i: nat, bound: seq<Asset>, ok: bool)
    requires i < |artifacts| && Issued(start, before, artifacts, i) && Matches(bound, artifacts[..i])
    requires Uploads(before, after, bound, artifacts[i], ok)
    ensures Issued(start, after, artifacts, i) || Issued(start, after, artifacts, i + 1)
    ensures ok ==> Issued(start, after, artifacts, i + 1)
  {
    if after != before {
      var added := after[|start|..];
      assert added[..i] == before[|start|..];
      forall t | 0 <= t < i + 1 ensures IssuedFor(added[t], artifacts, t) {
        if t < i {
          assert added[t] == before[|start|..][t];
        }
      }
    }
  }

  predicate NameFree(raws: seq<RawAsset>, name: Bytes) {
    forall i | 0 <= i < |raws| && raws[i].RawAsset? :: raws[i].name != name
  }

  /** The remote records an artifact as a new asset of its own. */
  predicate Records(raws: seq<RawAsset>, name: Bytes, artifact: Artifact, raw: RawAsset) {
    && raw.RawAsset? && raw.name == name && raw.digest == RecordedDigest(artifact.foundDigest)
    && raw.size == artifact.foundSize && ApiPath(raw.url).Some?
    && forall i | 0 <= i < |raws| && raws[i].RawAsset? :: raws[i].id != raw.id && raws[i].url != raw.url
  }

  predicate Lands(r: Release, name: Bytes, artifact: Artifact, r': Release, raw: RawAsset, at: nat) {
    && at <= |r.assets| && NameFree(r.assets, name) && Records(r.assets, name, artifact, raw)
    && r' == r.(assets := r.assets[..at] + [raw] + r.assets[at..])
  }

  /** An upload command that succeeds has landed; one that fails may have. */
  ghost predicate UploadStop(r: Release, name: Bytes, artifact: Artifact, r': Release, ok: bool) {
    (!ok && r' == r) || exists raw, at :: Lands(r, name, artifact, r', raw, at)
  }

  function Zeros(n: nat): Bytes {
    seq(n, _ => 48)
  }

  function Width(raws: seq<RawAsset>): nat {
    if raws == [] then 0
    else (if raws[0].RawAsset? then |raws[0].id| + |raws[0].url| else 0) + Width(raws[1..])
  }

  lemma {:induction false} WidthBounds(raws: seq<RawAsset>, i: nat)
    requires i < |raws| && raws[i].RawAsset?
    ensures |raws[i].id| + |raws[i].url| <= Width(raws)
  {
    if i > 0 {
      WidthBounds(raws[1..], i - 1);
    }
  }

  /** The remote always has a new identity to give. */
  lemma CanRecord(raws: seq<RawAsset>, name: Bytes, artifact: Artifact) returns (raw: RawAsset)
    ensures Records(raws, name, artifact, raw)
  {
    var n := Width(raws) + 1;
    raw := RawAsset(Zeros(n), name, URL_PREFIX + Zeros(n), RecordedDigest(artifact.foundDigest), artifact.foundSize);
    forall i | 0 <= i < |raws| && raws[i].RawAsset? ensures raws[i].id != raw.id && raws[i].url != raw.url {
      WidthBounds(raws, i);
    }
  }

  lemma ApiPathsDiffer(a: Bytes, b: Bytes)
    requires ApiPath(a).Some? && ApiPath(a) == ApiPath(b)
    ensures a == b
  {
    var x, y := a[|URL_PREFIX|..], b[|URL_PREFIX|..];
    assert (PATH_PREFIX + x)[|PATH_PREFIX|..] == x && (PATH_PREFIX + y)[|PATH_PREFIX|..] == y;
    assert a == URL_PREFIX + x && b == URL_PREFIX + y;
  }

  lemma RecordedIsNew(raws: seq<RawAsset>, name: Bytes, artifact: Artifact, raw: RawAsset)
    requires ParseAll(raws).Some? && NameFree(raws, name) && Records(raws, name, artifact, raw)
    ensures Parse(raw).Some? && IsNew(ParseAll(raws).value, Parse(raw).value)
  {
    var s, a := ParseAll(raws).value, Parse(raw).value;
    ParseIs(raws, s);
    forall i | 0 <= i < |s| ensures s[i].name != a.name && s[i].id != a.id && s[i].path != a.path {
      assert Parse(raws[i]) == Some(s[i]);
      if s[i].path == a.path {
        ApiPathsDiffer(raws[i].url, raw.url);
      }
    }
  }

  /** What a rollback that reports no failure has made of the release: with nothing
      bound it has not even looked. */
  predicate CleanReport(id: Bytes, tag: Bytes, bound: seq<Asset>, before: Release, after: Release) {
    if bound == [] then after == before else Shown(after, id, tag) == Some([])
  }

  /** A release showing what is bound, after one more upload has failed. */
  ghost predicate FailedAttempt(id: Bytes, tag: Bytes, bound: seq<Asset>, name: Bytes, artifact: Artifact, r: Release) {
    exists start :: Shown(start, id, tag) == Some(bound) && UploadStop(start, name, artifact, r, false)
  }

  lemma FirstUploadMayLand(r: Release, name: Bytes, artifact: Artifact) returns (r': Release, a: Asset)
    requires r.isDraft && r.assets == []
    ensures UploadStop(r, name, artifact, r', false) && Shown(r', r.id, r.tag) == Some([a]) && a.name == name
  {
    var raw := CanRecord([], name, artifact);
    RecordedIsNew([], name, artifact, raw);
    a := Parse(raw).value;
    r' := r.(assets := [] + [raw] + []);
    assert Lands(r, name, artifact, r', raw, 0);
    assert [] + [raw] + [] == [raw];
    ParseIs([raw], [a]);
    assert Sort([a][1..]) == [];
  }

  /** After every failed attempt a clean report means that the release shows nothing,
      exactly when something was bound: with nothing bound the first upload may have
      landed although its command failed. */
  lemma CleanReportIsTrue(id: Bytes, tag: Bytes, bound: seq<Asset>, name: Bytes, artifact: Artifact)
    ensures (forall failed, after ::
               FailedAttempt(id, tag, bound, name, artifact, failed) && CleanReport(id, tag, bound, failed, after) ==>
                 Shown(after, id, tag) == Some([]))
            <==> bound != []
  {
    if bound == [] {
      var start := Release(id, tag, true, []);
      var failed, landed := FirstUploadMayLand(start, name, artifact);
      assert Shown(start, id, tag) == Some([]);
      assert FailedAttempt(id, tag, bound, name, artifact, failed) && CleanReport(id, tag, bound, failed, failed);
    }
  }

  /** A landed upload in name order shows as the bound list with it at the end. */
  lemma LandedShows(r: Release, name: Bytes, artifact: Artifact, r': Release, bound: seq<Asset>)
    requires WellFormed(r.assets) && r.isDraft && Shown(r, r.id, r.tag) == Some(bound)
    requires UploadStop(r, name, artifact, r', true)
    ensures WellFormed(r'.assets) && Shown(r', r.id, r.tag).Some?
    ensures artifact.foundDigest == artifact.digest && artifact.foundSize == artifact.size ==>
              var shown := Shown(r', r.id, r.tag).value;
              var a := BindNew(shown, name, artifact.digest, artifact.size, bound);
              a.Some? && a.value.name == name && (shown == bound + [a.value] <==> Follows(bound, name))
  {
    var raw, at :| Lands(r, name, artifact, r', raw, at);
    RecordedIsNew(r.assets, name, artifact, raw);
    UploadShows(r.assets, raw, at, bound);
  }

  lemma FollowsIsFree(raws: seq<RawAsset>, bound: seq<Asset>, name: Bytes)
    requires WellFormed(raws) && Listing(raws) == Some(bound) && Follows(bound, name)
    ensures NameFree(raws, name)
  {
    hide Before, Sort, Parse;
    var s := ParseAll(raws).value;
    ParseIs(raws, s);
    SortOrders(s);
    SortKeeps(s);
    forall i | 0 <= i < |raws| && raws[i].RawAsset? ensures raws[i].name != name {
      ParsedName(raws[i], s[i]);
      assert s[i] in multiset(bound);
      var j :| 0 <= j < |bound| && bound[j] == s[i];
      BeforeIsStrictOrder(bound[j].name, bound[|bound| - 1].name, name);
      BeforeIsStrictOrder(name, name, name);
    }
  }

  lemma ParsedName(raw: RawAsset, a: Asset)
    requires Parse(raw) == Some(a)
    ensures raw.RawAsset? && raw.name == a.name
  {
  }

  /** What the source requires of an artifact before uploading it. */
  predicate Undrifted(artifact: Artifact) {
    artifact.name.Some? && artifact.foundDigest == artifact.digest && artifact.foundSize == artifact.size
  }

  /** `b` is `bound` with one new asset, bound to the artifact. */
  ghost predicate Extends(bound: seq<Asset>, artifact: Artifact, b: seq<Asset>) {
    && |b| == |bound| + 1 && b[..|bound|] == bound && BindsTo(b[|bound|], artifact)
    && forall i | 0 <= i < |bound| :: bound[i].id != b[|bound|].id
  }

  lemma BoundIsBound(shown: seq<Asset>, artifact: Artifact, bound: seq<Asset>)
    requires artifact.name.Some?
    ensures var a := BindNew(shown, artifact.name.value, artifact.digest, artifact.size, bound);
            a.Some? ==> Extends(bound, artifact, bound + [a.value]) &&
                        a.value.digest == Ascii("sha256:") + artifact.digest && a.value in shown
  {
    NamedHasName(shown, artifact.name.value);
  }

  /** A bound list and the artifacts it was bound to, in order. */
  predicate Matches(bound: seq<Asset>, artifacts: seq<Artifact>) {
    && |bound| == |artifacts|
    && (forall i | 0 <= i < |bound| :: BindsTo(bound[i], artifacts[i]))
    && (forall i, j | 0 <= i < j < |bound| :: bound[i].id != bound[j].id)
  }

  /** The artifacts are as verified and come in strict name order. */
  predicate InNameOrder(artifacts: seq<Artifact>) {
    && (forall i | 0 <= i < |artifacts| :: Undrifted(artifacts[i]))
    && (forall i | 0 < i < |artifacts| :: Before(artifacts[i - 1].name.value, artifacts[i].name.value))
  }

  /** Each artifact's name is smaller than the next one's. */
  predicate Ascending(artifacts: seq<Artifact>) {
    && (forall i | 0 <= i < |artifacts| :: Undrifted(artifacts[i]))
    && (forall i | 0 < i < |artifacts| :: Smaller(artifacts[i - 1].name.value, artifacts[i].name.value))
  }

  lemma NameOrderIsAscending(artifacts: seq<Artifact>)
    ensures InNameOrder(artifacts) <==> Ascending(artifacts)
    ensures InNameOrder(artifacts[..0])
  {
    hide Before, Smaller;
    forall i | 0 < i < |artifacts| && artifacts[i - 1].name.Some? && artifacts[i].name.Some?
      ensures Before(artifacts[i - 1].name.value, artifacts[i].name.value) <==>
              Smaller(artifacts[i - 1].name.value, artifacts[i].name.value)
    {
      BeforeIsSmaller(artifacts[i - 1].name.value, artifacts[i].name.value);
    }
  }

  lemma MatchesOneMore(bound: seq<Asset>, artifacts: seq<Artifact>, i: nat, b: seq<Asset>)
    requires i < |artifacts| && Matches(bound, artifacts[..i]) && Extends(bound, artifacts[i], b)
    ensures Matches(b, artifacts[..i + 1])
  {
    assert forall k | 0 <= k < i :: b[k] == bound[k];
  }

  /** The next artifact keeps the name order exactly when it follows the bound list. */
  lemma OrderStep(artifacts: seq<Artifact>, i: nat, bound: seq<Asset>)
    requires i < |artifacts| && Matches(bound, artifacts[..i])
    ensures InNameOrder(artifacts[..i]) ==>
              (InNameOrder(artifacts[..i + 1]) <==> Undrifted(artifacts[i]) && Follows(bound, artifacts[i].name.value))
    ensures InNameOrder(artifacts) ==> InNameOrder(artifacts[..i + 1])
  {
    hide Before;
    if i > 0 {
      assert BindsTo(bound[i - 1], artifacts[..i][i - 1]);
    }
    if InNameOrder(artifacts[..i + 1]) {
      assert Undrifted(artifacts[..i + 1][i]);
      if i > 0 {
        assert Before(artifacts[..i + 1][i - 1].name.value, artifacts[..i + 1][i].name.value);
      }
    }
  }

  class Publisher {
    const id: Bytes
    const tag: Bytes
    const drifting: bool   // others may change the release at any time
    const reliable: bool   // no command or request fails
    var release: Release
    ghost var seen: Option<seq<Asset>>   // what the last read showed
    ghost var deletes: seq<Compensation>
    ghost var uploads: seq<Uploading>

    constructor (release: Release, drifting: bool, reliable: bool)
      ensures this.release == release && deletes == [] && uploads == []
      ensures id == release.id && tag == release.tag && this.drifting == drifting && this.reliable == reliable
    {
      this.id, this.tag, this.release := release.id, release.tag, release;
      this.drifting, this.reliable := drifting, reliable;
      seen, deletes, uploads := None, [], [];
    }

    /** Nobody else changes the release, nothing fails, and it shows exactly `bound`. */
    predicate Calm(bound: seq<Asset>)
      reads this
    {
      !drifting && reliable && WellFormed(release.assets) && Shown(release, id, tag) == Some(bound)
    }

    method Others()
      modifies this`release
      ensures !drifting ==> release == old(release)
    {
      if drifting {
        release := *;
      }
    }

    method Fails() returns (fail: bool)
      ensures reliable ==> !fail
    {
      fail := *;
      if reliable {
        fail := false;
      }
    }

    /** Read the release and validate it against the binding. */
    method Read() returns (r: Option<seq<Asset>>)
      modifies this`release, this`seen
      ensures seen == r
      ensures !drifting ==> release == old(release)
      ensures r.Some? ==> Shown(release, id, tag) == r
      ensures reliable ==> r == Shown(release, id, tag)
    {
      Others();
      var fail := Fails();
      r := if fail then None else Shown(release, id, tag);
      seen := r;
    }

    method Delete(path: Bytes) returns (ok: bool)
      modifies this`release, this`deletes
      ensures deletes == old(deletes) + [Compensation(path, seen)]
      ensures !drifting ==> release == old(release).(assets := Without(old(release).assets, path)) ||
                            (!ok && release == old(release))
      ensures reliable ==> ok
    {
      Others();
      var fail := Fails();
      var effect: bool := *;
      if !fail || effect {
        release := release.(assets := Without(release.assets, path));
      }
      deletes := deletes + [Compensation(path, seen)];
      ok := !fail;
    }

    /** One turn of the rollback loop: check the exact prefix, delete its last asset,
        read back. */
    method Compensate(bound: seq<Asset>, index: nat) returns (ok: bool, ghost issued: bool)
      requires index < |bound|
      modifies this`release, this`seen, this`deletes
      ensures deletes == old(deletes) +
                if issued then [Compensation(bound[index].path, Some(bound[..index + 1]))] else []
      ensures ok ==> issued && Shown(release, id, tag) == Some(bound[..index])
      ensures old(Calm(bound[..index + 1])) ==>
                ok && WellFormed(release.assets)
    {
      hide Listing, WellFormed, Without, Compensations;
      issued := false;
      var state := Read();
      if state != Some(bound[..index + 1]) {
        return false, false;
      }
      ghost var front := bound[..index + 1];
      if WellFormed(release.assets) {
        DeleteShows(release.assets, front);
        assert front[..index] == bound[..index];
      }
      issued := true;
      ok := Delete(bound[index].path);
      if ok {
        var readback := Read();
        ok := readback == Some(bound[..index]);
      }
    }

    /** The source's `rollback_draft_release_assets`: only bound assets are deleted,
        last first, each with exactly the assets bound up to it in sight; a clean
        rollback has deleted them all and, if there were any, seen them gone. */
    method Rollback(bound: seq<Asset>) returns (clean: bool)
      modifies this`release, this`seen, this`deletes
      ensures Undoes(old(deletes), deletes, bound, clean)
      ensures clean ==> CleanReport(id, tag, bound, old(release), release)
      ensures bound == [] ==> clean
      ensures old(Calm(bound)) ==>
                clean && Shown(release, id, tag) == Some([])
    {
      hide Shown, WellFormed, Listing;
      assert bound[..|bound|] == bound;
      ghost var k := 0;
      var index := |bound|;
      clean := true;
      while index > 0 && clean
        invariant 0 <= index <= |bound| && 0 <= k <= |bound| && (clean ==> k == |bound| - index)
        invariant deletes == old(deletes) + Compensations(bound, k)
        invariant clean && index < |bound| ==> Shown(release, id, tag) == Some(bound[..index])
        invariant index == |bound| ==> clean && release == old(release)
        invariant old(Calm(bound)) ==>
                    clean && Shown(release, id, tag) == Some(bound[..index]) && WellFormed(release.assets)
        decreases index
      {
        index := index - 1;
        ghost var issued;
        assert bound[..|bound|] == bound;
        clean, issued := Compensate(bound, index);
        if issued {
          assert Compensations(bound, k + 1) ==
                 Compensations(bound, k) + [Compensation(bound[index].path, Some(bound[..index + 1]))];
          k := k + 1;
        }
      }
      assert bound[..0] == [];
    }

    /** The upload command. A name that is taken is refused; otherwise the asset may
        land even when the command fails. */
    method Upload(name: Bytes, artifact: Artifact) returns (ok: bool)
      modifies this`release, this`uploads
      ensures uploads == old(uploads) + [Uploading(artifact, seen)]
      ensures !drifting ==> UploadStop(old(release), name, artifact, release, ok)
      ensures !drifting && reliable && NameFree(old(release).assets, name) ==> ok
    {
      uploads := uploads + [Uploading(artifact, seen)];
      Others();
      ghost var before := release;
      var fail := Fails();
      var effect: bool := *;
      if !NameFree(release.assets, name) || (fail && !effect) {
        return false;
      }
      ghost var possible := CanRecord(release.assets, name, artifact);
      var raw :| Records(release.assets, name, artifact, raw);
      var at :| 0 <= at <= |release.assets|;
      release := release.(assets := release.assets[..at] + [raw] + release.assets[at..]);
      assert Lands(before, name, artifact, release, raw, at);
      ok := !fail;
    }

    /** The source's `upload_release_asset`. On success the asset is bound and shown
        last; on failure everything bound by then is rolled back. */
    method UploadAsset(bound: seq<Asset>, artifact: Artifact) returns (r: Option<seq<Asset>>, clean: bool)
      modifies this`release, this`seen, this`deletes, this`uploads
      ensures Uploads(old(uploads), uploads, bound, artifact, r.Some?)
      ensures r.Some? ==> deletes == old(deletes) && Shown(release, id, tag) == r && Extends(bound, artifact, r.value)
      ensures r.None? ==> exists b :: (b == bound || Extends(bound, artifact, b)) &&
                                      Undoes(old(deletes), deletes, b, clean) &&
                                      (clean && b != [] ==> Shown(release, id, tag) == Some([]))
      ensures old(Calm(bound)) ==>
                && (r.Some? <==> Undrifted(artifact) && Follows(bound, artifact.name.value))
                && (r.Some? ==> WellFormed(release.assets))
    {
      clean := true;
      r := Attempt(bound, artifact);
      if r.None? {
        clean := Rollback(bound);
        return;
      }
      var readback := Read();
      if readback != r {
        clean := Rollback(r.value);
        r := None;
      }
    }

    /** Everything up to binding the new asset. */
    method Attempt(bound: seq<Asset>, artifact: Artifact) returns (r: Option<seq<Asset>>)
      modifies this`release, this`seen, this`uploads
      ensures Uploads(old(uploads), uploads, bound, artifact, r.Some?)
      ensures r.Some? ==> Extends(bound, artifact, r.value)
      ensures old(Calm(bound)) ==>
                && (Undrifted(artifact) && Follows(bound, artifact.name.value) ==> r.Some?)
                && (r.Some? ==> Undrifted(artifact) && WellFormed(release.assets))
                && (r.Some? ==> (Shown(release, id, tag) == r <==> Follows(bound, artifact.name.value)))
    {
      hide Listing, WellFormed, BindNew, UploadStop, Follows, NameFree;
      var before := Read();
      if before != Some(bound) || artifact.name.None? {
        return None;
      }
      var unread := Fails();
      if unread || artifact.foundDigest != artifact.digest || artifact.foundSize != artifact.size {
        return None;
      }
      ghost var was := release;
      var name := artifact.name.value;
      if WellFormed(release.assets) && Listing(release.assets) == Some(bound) && Follows(bound, name) {
        FollowsIsFree(release.assets, bound, name);
      }
      var uploaded := Upload(name, artifact);
      if !uploaded {
        return None;
      }
      if WellFormed(was.assets) && Shown(was, id, tag) == Some(bound) &&
         UploadStop(was, name, artifact, release, true) {
        LandedShows(was, name, artifact, release, bound);
      }
      var shown := Read();
      if shown.None? {
        return None;
      }
      var asset := BindNew(shown.value, name, artifact.digest, artifact.size, bound);
      if asset.None? {
        return None;
      }
      BoundIsBound(shown.value, artifact, bound);
      r := Some(bound + [asset.value]);
    }

    /** The source's `publish`, from the empty draft on: one artifact after another.
        On success the remote shows exactly the artifacts, each bound to its own
        identity, and nothing has been deleted. */
    method Publish(artifacts: seq<Artifact>) returns (ok: bool, bound: seq<Asset>, clean: bool)
      modifies this`release, this`seen, this`deletes, this`uploads
      ensures exists n :: Issued(old(uploads), uploads, artifacts, n) && (ok ==> n == |artifacts|)
      ensures ok ==> Matches(bound, artifacts) && deletes == old(deletes)
      ensures ok && artifacts != [] ==> Shown(release, id, tag) == Some(bound)
      ensures !ok ==> exists b, n :: 0 <= n <= |artifacts| && Matches(b, artifacts[..n]) &&
                                     Undoes(old(deletes), deletes, b, clean) &&
                                     (clean && b != [] ==> Shown(release, id, tag) == Some([]))
      ensures old(Calm([])) ==>
                (ok <==> Ascending(artifacts))
    {
      hide Issued, Uploads, InNameOrder, Ascending, Shown, WellFormed;
      NameOrderIsAscending(artifacts);
      NothingIssued(uploads, artifacts);
      bound, clean := [], true;
      var draft := Read();
      if draft != Some([]) {
        assert Issued(old(uploads), uploads, artifacts, 0);
        assert deletes == old(deletes) + Compensations([], 0);
        assert Matches([], artifacts[..0]) && Undoes(old(deletes), deletes, [], true);
        return false, [], true;
      }
      var i := 0;
      while i < |artifacts|
        invariant 0 <= i <= |artifacts| && deletes == old(deletes) && Issued(old(uploads), uploads, artifacts, i)
        invariant Matches(bound, artifacts[..i])
        invariant i > 0 ==> Shown(release, id, tag) == Some(bound)
        invariant old(Calm([])) ==>
                    InNameOrder(artifacts[..i]) && WellFormed(release.assets) && Shown(release, id, tag) == Some(bound)
      {
        var next: Option<seq<Asset>>;
        ghost var issued := uploads;
        next, clean := UploadAsset(bound, artifacts[i]);
        IssuedOneMore(old(uploads), issued, uploads, artifacts, i, bound, next.Some?);
        OrderStep(artifacts, i, bound);
        if next.None? {
          ghost var b :| (b == bound || Extends(bound, artifacts[i], b)) && Undoes(old(deletes), deletes, b, clean) &&
                         (clean && b != [] ==> Shown(release, id, tag) == Some([]));
          if b != bound {
            MatchesOneMore(bound, artifacts, i, b);
          }
          return false, bound, clean;
        }
        MatchesOneMore(bound, artifacts, i, next.value);
        bound := next.value;
        i := i + 1;
      }
      assert artifacts[..|artifacts|] == artifacts;
      ok := true;
    }
  }
}
