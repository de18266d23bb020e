/** The header cache of c/input/lrec_reader_stdio_csv.c (lines 9-17, 76-83):
    an insertion-ordered map from a header's field-name sequence to the
    keeper that retains it. Keepers are never replaced or removed while the
    reader lives, so a keeper's position in the cache is its identity, and a
    record's keys stay valid for the reader's whole lifetime. */
module HeaderCache {
  import opened Wrappers

  /** A retained header: the raw line it was first read from and its field
      names, in order; names may repeat. */
  datatype HeaderKeeper = HeaderKeeper(line: string, fields: seq<string>)

  /** A keeper's identity: its position in the insertion-ordered cache. */
  type HeaderId = nat

  /** At most one keeper per field sequence. */
  predicate Unique(keepers: seq<HeaderKeeper>)
  {
    forall i, j :: 0 <= i < j < |keepers| ==> keepers[i].fields != keepers[j].fields
  }

  /** Some keeper in the cache has exactly these field names. */
  predicate Cached(keepers: seq<HeaderKeeper>, fields: seq<string>)
  {
    exists i :: 0 <= i < |keepers| && keepers[i].fields == fields
  }

  /** The keeper for `fields`, if one is cached (lhmslv_get at line 76). The
      hash lookup is modelled as a front-to-back search; in a cache without
      duplicates both find the one matching entry. */
  function Lookup(keepers: seq<HeaderKeeper>, fields: seq<string>): (r: Option<HeaderId>)
    ensures r.Some? ==> r.value < |keepers| && keepers[r.value].fields == fields
    ensures r.None? <==> !Cached(keepers, fields)
    decreases |keepers|
  {
    if |keepers| == 0 then None
    else if keepers[0].fields == fields then Some(0)
    else
      match Lookup(keepers[1..], fields)
      case None => None
      case Some(i) => Some(i + 1)
  }

  /** Resolving a freshly split header (lines 76-83): a cached schema
      re-selects its existing keeper and leaves the cache as it was (the new
      line is discarded); a new schema appends exactly one keeper, holding
      this line, and selects it. The cache only grows and stays free of
      duplicates. */
  function Resolve(keepers: seq<HeaderKeeper>, line: string, fields: seq<string>): (r: (seq<HeaderKeeper>, HeaderId))
    ensures r.1 < |r.0| && r.0[r.1].fields == fields
    ensures keepers <= r.0
    ensures Cached(keepers, fields) ==> r.0 == keepers
    ensures !Cached(keepers, fields) ==> r.0 == keepers + [HeaderKeeper(line, fields)] && r.1 == |keepers|
    ensures Unique(keepers) ==> Unique(r.0)
  {
    match Lookup(keepers, fields)
    case Some(id) => (keepers, id)
    case None => (keepers + [HeaderKeeper(line, fields)], |keepers|)
  }

  /** In a duplicate-free cache, a cached schema resolves to the keeper that
      holds it. */
  lemma ResolveReselects(keepers: seq<HeaderKeeper>, line: string, fields: seq<string>, id: HeaderId)
    requires Unique(keepers)
    requires id < |keepers| && keepers[id].fields == fields
    ensures Resolve(keepers, line, fields) == (keepers, id)
  {
    var r := Lookup(keepers, fields);
    assert r.Some?;
  }

  /** Identity across occurrences: once a schema has been resolved, every
      later occurrence of it, in any cache grown from that one, resolves to
      the same keeper, whatever lines were read in between. */
  lemma ResolveStable(keepers: seq<HeaderKeeper>, line: string, fields: seq<string>,
                      later: seq<HeaderKeeper>, line': string)
    requires Resolve(keepers, line, fields).0 <= later
    requires Unique(later)
    ensures Resolve(later, line', fields) == (later, Resolve(keepers, line, fields).1)
  {
    var (grown, id) := Resolve(keepers, line, fields);
    assert later[id] == grown[id];
    ResolveReselects(later, line', fields, id);
  }
}
