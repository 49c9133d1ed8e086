/** From a request URI to its API handler. */
module Routing {
  import opened Bytes

  datatype Handler = Handler(name: string, kind: string)

  /** The test of one table entry: its name is a prefix that ends at the end of the path or at a slash. */
  predicate Matches(entry: string, path: string) {
    && |entry| <= |path| && path[..|entry|] == entry
    && (|path| > |entry| ==> path[|entry|] == '/')
  }

  /** The first entry that matches. */
  function First(table: seq<Handler>, path: string): (r: Option<Handler>)
    ensures r.Some? ==> r.value in table && Matches(r.value.name, path)
    ensures r.None? ==> forall h :: h in table ==> !Matches(h.name, path)
  {
    if table == [] then None else if Matches(table[0].name, path) then Some(table[0]) else First(table[1..], path)
  }

  /** An entry is found exactly when it matches and none before it does. */
  lemma {:induction false} FirstWins(table: seq<Handler>, path: string, i: nat)
    requires i < |table| && Matches(table[i].name, path)
    requires forall j :: 0 <= j < i ==> !Matches(table[j].name, path)
    ensures First(table, path) == Some(table[i])
    decreases |table|
  {
    if i > 0 {
      FirstWins(table[1..], path, i - 1);
    }
  }

  predicate IsApi(uri: string) {
    |uri| >= 6 && uri[..5] == "/api/"
  }

  function Find(table: seq<Handler>, uri: string): Option<Handler> {
    if IsApi(uri) then First(table, uri[5..]) else None
  }

  method ComparesEqual(path: string, entry: string) returns (equal: bool)
    requires |entry| <= |path|
    ensures equal <==> path[..|entry|] == entry
  {
    for i := 0 to |entry|
      invariant path[..i] == entry[..i]
    {
      if path[i] != entry[i] {
        assert path[..|entry|][i] != entry[i];
        return false;
      }
    }
    assert entry[..|entry|] == entry;
    return true;
  }

  /** `get_api_handler`: the first entry that matches a path that is not empty. */
  method GetApiHandler(table: seq<Handler>, path: string) returns (h: Option<Handler>)
    ensures h == if path == "" then None else First(table, path)
  {
    if |path| == 0 { return None; }
    for i := 0 to |table|
      invariant First(table, path) == First(table[i..], path)
    {
      assert table[i..][0] == table[i] && table[i..][1..] == table[i + 1..];
      var n := |table[i].name|;
      if n > |path| { continue; }
      var equal := ComparesEqual(path, table[i].name);
      if !equal { continue; }
      if |path| > n && path[n] != '/' { continue; }
      return Some(table[i]);
    }
    return None;
  }

  /** `find_handler`. */
  method FindHandler(table: seq<Handler>, uri: string) returns (h: Option<Handler>)
    ensures h == Find(table, uri)
  {
    if |uri| < 6 || uri[..5] != "/api/" {
      return None;
    }
    h := GetApiHandler(table, uri[5..]);
  }

  // ---------------------------------------------------------------- meaning

  /** The path up to its first slash. */
  function Segment(path: string): string {
    if path == "" || path[0] == '/' then "" else [path[0]] + Segment(path[1..])
  }

  predicate Configured(table: seq<Handler>) {
    && (forall i :: 0 <= i < |table| ==> '/' !in table[i].name)
    && (forall i, j :: 0 <= i < j < |table| ==> table[i].name != table[j].name)
  }

  /** The entry whose name is the first path segment after /api/. */
  predicate Addressed(table: seq<Handler>, uri: string, e: Handler) {
    e in table && |uri| >= 6 && uri[..5] == "/api/" && e.name == Segment(uri[5..])
  }

  lemma {:induction false} MatchIsSegment(entry: string, path: string)
    requires '/' !in entry
    ensures Matches(entry, path) <==> entry == Segment(path)
    decreases |path|
  {
    if entry == "" {
    } else if path == "" {
    } else if path[0] == '/' {
      assert entry[0] != '/';
    } else {
      var rest := entry[1..];
      MatchIsSegment(rest, path[1..]);
      assert entry == [entry[0]] + rest;
      if Matches(entry, path) {
        assert path[..|entry|][0] == entry[0];
        assert path[1..][..|rest|] == path[..|entry|][1..];
      }
      if entry == Segment(path) {
        assert rest == Segment(path)[1..];
        assert path[..|entry|] == [path[0]] + path[1..][..|rest|];
      }
    }
  }

  /** The scan returns the entry named by the first segment of the path, and none only if there is none. */
  lemma {:induction false} FirstIsSegment(table: seq<Handler>, path: string)
    requires Configured(table)
    ensures forall e :: First(table, path) == Some(e) <==> e in table && e.name == Segment(path)
    decreases |table|
  {
    if table != [] {
      MatchIsSegment(table[0].name, path);
      FirstIsSegment(table[1..], path);
      assert table == [table[0]] + table[1..];
      assert forall e :: e in table[1..] ==> e.name != table[0].name;
    }
  }

  /** Routing by prefix is routing by the first path segment. */
  lemma FindIsAddressed(table: seq<Handler>, uri: string)
    requires Configured(table)
    ensures forall e :: Find(table, uri) == Some(e) <==> Addressed(table, uri, e)
  {
    if IsApi(uri) {
      FirstIsSegment(table, uri[5..]);
    }
  }

  /** Whatever the table, a URI that does not begin with /api/ and at least one more character finds nothing. */
  lemma OtherUris(table: seq<Handler>, uri: string)
    requires |uri| < 6 || uri[0] != '/' || uri[1] != 'a' || uri[2] != 'p' || uri[3] != 'i' || uri[4] != '/'
    ensures Find(table, uri) == None
  {
    if |uri| >= 6 {
      var p := uri[..5];
      assert p[0] == uri[0] && p[1] == uri[1] && p[2] == uri[2] && p[3] == uri[3] && p[4] == uri[4];
    }
  }

  /** Tables with the same entries route every URI alike, in whatever order they list them. */
  lemma OrderIrrelevant(a: seq<Handler>, b: seq<Handler>, uri: string)
    requires Configured(a) && Configured(b) && forall h :: h in a <==> h in b
    ensures Find(a, uri) == Find(b, uri)
  {
    FindIsAddressed(a, uri);
    FindIsAddressed(b, uri);
    if Find(a, uri).Some? {
      assert Addressed(b, uri, Find(a, uri).value);
    }
  }

  /** Without distinct slash-free names the order decides: the path a/b goes to whichever entry comes first. */
  lemma OrderMatters(kind: string)
    ensures var outer, inner := Handler("a", kind), Handler("a/b", kind);
      Find([outer, inner], "/api/a/b") == Some(outer) && Find([inner, outer], "/api/a/b") == Some(inner)
  {
    assert "/api/a/b"[5..] == "a/b" && "a/b"[..1] == "a" && "a/b"[..3] == "a/b";
  }
}
