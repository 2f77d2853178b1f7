/**
 * The repository list of generate-repo-slide.mjs: `parseEnvRepos`, which
 * reads a comma-separated list of `owner/name` or bare `name` items, and
 * the split of a GitHub `nameWithOwner` into owner and name.
 */
module RepoList {
  import opened Strings

  datatype RepoRef = RepoRef(owner: string, name: string)

  /** `.map(s => s.trim())`. */
  function TrimAll(fields: seq<string>): (r: seq<string>)
    ensures |r| == |fields|
  {
    if fields == [] then [] else [Trim(fields[0])] + TrimAll(fields[1..])
  }

  /** `.filter(Boolean)` on strings: the non-empty ones, in order. */
  function NonEmpty(xs: seq<string>): (r: seq<string>)
    ensures |r| <= |xs|
    ensures forall i :: 0 <= i < |r| ==> r[i] != "" && r[i] in xs
    ensures forall x :: x in xs && x != "" ==> x in r
  {
    if xs == [] then []
    else (if xs[0] == "" then [] else [xs[0]]) + NonEmpty(xs[1..])
  }

  /** The trimmed pieces, empty ones dropped, in order. */
  function Entries(fields: seq<string>): seq<string> {
    NonEmpty(TrimAll(fields))
  }

  /** One item: `owner/name` takes the first two `/`-pieces, anything else is
      a repository of the default owner. */
  function ParseItem(s: string, user: string): RepoRef {
    if '/' in s then
      var p := Split(s, '/');
      RepoRef(p[0], p[1])
    else RepoRef(user, s)
  }

  /** The items `parseEnvRepos` reads from `raw`. */
  function Items(raw: string): seq<string> {
    Entries(Split(raw, ','))
  }

  /** `parseEnvRepos(raw)` with `GH_USER` as `user`. */
  function ParseEnvRepos(raw: string, user: string): (r: seq<RepoRef>)
    ensures |r| == |Items(raw)|
    ensures forall i :: 0 <= i < |r| ==> r[i] == ParseItem(Items(raw)[i], user)
  {
    ParseAll(Items(raw), user)
  }

  function ParseAll(items: seq<string>, user: string): (r: seq<RepoRef>)
    ensures |r| == |items|
    ensures forall i :: 0 <= i < |r| ==> r[i] == ParseItem(items[i], user)
  {
    if items == [] then [] else [ParseItem(items[0], user)] + ParseAll(items[1..], user)
  }

  // ---------------------------------------------------------------------

  lemma {:induction false} TrimAllAppend(a: seq<string>, b: seq<string>)
    ensures TrimAll(a + b) == TrimAll(a) + TrimAll(b)
  {
    if a == [] {
      assert a + b == b;
    } else {
      assert (a + b)[1..] == a[1..] + b;
      TrimAllAppend(a[1..], b);
    }
  }

  /** Each piece is trimmed on its own. */
  lemma {:induction false} TrimAllAt(fields: seq<string>, i: nat)
    requires i < |fields|
    ensures TrimAll(fields)[i] == Trim(fields[i])
  {
    if i > 0 {
      TrimAllAt(fields[1..], i - 1);
    }
  }

  lemma {:induction false} NonEmptyAppend(a: seq<string>, b: seq<string>)
    ensures NonEmpty(a + b) == NonEmpty(a) + NonEmpty(b)
  {
    if a == [] {
      assert a + b == b;
    } else {
      assert (a + b)[1..] == a[1..] + b;
      NonEmptyAppend(a[1..], b);
    }
  }

  lemma EntriesAppend(a: seq<string>, b: seq<string>)
    ensures Entries(a + b) == Entries(a) + Entries(b)
  {
    TrimAllAppend(a, b);
    NonEmptyAppend(TrimAll(a), TrimAll(b));
  }

  lemma {:induction false} ParseAllAppend(a: seq<string>, b: seq<string>, user: string)
    ensures ParseAll(a + b, user) == ParseAll(a, user) + ParseAll(b, user)
  {
    if a == [] {
      assert a + b == b;
    } else {
      assert (a + b)[1..] == a[1..] + b;
      ParseAllAppend(a[1..], b, user);
    }
  }

  /** The list is read item by item: the entries of a list joined by a comma
      are those of its two sides, in order. */
  lemma ParseConcat(a: string, b: string, user: string)
    ensures ParseEnvRepos(a + "," + b, user) == ParseEnvRepos(a, user) + ParseEnvRepos(b, user)
  {
    assert a + "," + b == a + [','] + b;
    SplitAround(a, ',', b);
    EntriesAppend(Split(a, ','), Split(b, ','));
    ParseAllAppend(Items(a), Items(b), user);
  }

  /** An item without a comma contributes one entry, its trimmed self, or
      none when it is blank. */
  lemma ParseSingle(s: string, user: string)
    requires ',' !in s
    ensures ParseEnvRepos(s, user) == if Trim(s) == "" then [] else [ParseItem(Trim(s), user)]
  {
    assert Split(s, ',') == [s];
    assert TrimAll([s]) == [Trim(s)];
    assert NonEmpty([Trim(s)]) == (if Trim(s) == "" then [] else [Trim(s)]) + NonEmpty([]);
  }

  /** A bare name belongs to the default owner. */
  lemma ParseItemBare(s: string, user: string)
    requires '/' !in s
    ensures ParseItem(s, user) == RepoRef(user, s)
  {
  }

  /** `owner/name` yields the first two pieces, which hold no `/`; the item
      is exactly `owner/name`, or continues with a further `/` whose pieces
      are dropped. */
  lemma ParseItemSlashed(s: string, user: string)
    requires '/' in s
    ensures var r := ParseItem(s, user);
      && '/' !in r.owner && '/' !in r.name
      && (s == r.owner + "/" + r.name || r.owner + "/" + r.name + "/" <= s)
  {
    var p := Split(s, '/');
    JoinSplit(s, '/');
    SplitPieces(s, '/');
    assert [p[0], p[1]][1..] == [p[1]];
    assert p[..2] == [p[0], p[1]];
    if |p| == 2 {
      assert p == [p[0], p[1]];
    } else {
      JoinPrefix(p, 3, "/");
      var q := p[..3];
      assert q[1..][1..] == [p[2]];
      assert Join(q[1..], "/") == p[1] + "/" + p[2];
      assert Join(q, "/") == p[0] + "/" + (p[1] + "/" + p[2]);
      assert p[0] + "/" + p[1] + "/" <= Join(q, "/");
    }
  }

  // ---------------------------------------------------------------------
  // nameWithOwner

  /** `const [owner, ...rest] = nameWithOwner.split("/")` and
      `{ owner, name: rest.join("/") }`. */
  function SplitNameWithOwner(nwo: string): RepoRef {
    var p := Split(nwo, '/');
    RepoRef(p[0], Join(p[1..], "/"))
  }

  /** The owner is the part before the first `/` and the name all the rest,
      so owner, `/` and name give back `nameWithOwner`. */
  lemma NameWithOwnerRoundTrip(nwo: string)
    requires '/' in nwo
    ensures var r := SplitNameWithOwner(nwo);
      '/' !in r.owner && r.owner + "/" + r.name == nwo
  {
    var p := Split(nwo, '/');
    JoinSplit(nwo, '/');
    SplitPieces(nwo, '/');
  }

  /** Without a `/`, the whole string is the owner and the name is empty. */
  lemma NameWithOwnerBare(nwo: string)
    requires '/' !in nwo
    ensures SplitNameWithOwner(nwo) == RepoRef(nwo, "")
  {
  }
}
