/** The configuration-store wrapper (src/etcd.js): discovering the fleet by
    grouping keys on their path segments, and the weight key of a server.
    The store's contents are a map from key to weight; the client calls
    themselves are not modelled. */
module Store {
  import opened Wrappers

  /** One key/value pair of the listing under the server prefix. */
  datatype Entry = Entry(key: string, value: string)

  /** The zero and full weights the monitor writes. */
  datatype Weights = Weights(zero: int, full: int)

  /** A weight write the monitor issues for one server. */
  datatype Write = SetZero(server: string) | SetFull(server: string)

  /** `split("/")`: the segments between slashes, at least one of them. */
  function Split(s: string): (parts: seq<string>)
    ensures |parts| >= 1
    ensures forall p | p in parts :: '/' !in p
  {
    if s == [] then [""]
    else
      var rest := Split(s[1..]);
      if s[0] == '/' then [""] + rest else [[s[0]] + rest[0]] + rest[1..]
  }

  /** `join("/")`, the inverse of `Split`. */
  function Join(parts: seq<string>): string
    requires |parts| >= 1
  {
    if |parts| == 1 then parts[0] else parts[0] + "/" + Join(parts[1..])
  }

  /** Splitting loses nothing: joining the segments gives the key back. */
  lemma {:induction false} JoinSplit(s: string)
    ensures Join(Split(s)) == s
  {
    if s != [] {
      JoinSplit(s[1..]);
      var rest := Split(s[1..]);
      if s[0] == '/' {
        assert s == [s[0]] + s[1..];
      } else if |rest| == 1 {
        assert s == [s[0]] + s[1..];
      } else {
        assert Join(rest) == rest[0] + "/" + Join(rest[1..]);
        assert s == [s[0]] + s[1..];
      }
    }
  }

  /** And segments without slashes are split back exactly. */
  lemma {:induction false} SplitJoin(parts: seq<string>)
    requires |parts| >= 1 && forall p | p in parts :: '/' !in p
    ensures Split(Join(parts)) == parts
  {
    if |parts| == 1 {
      SplitSegment(parts[0]);
    } else {
      SplitJoin(parts[1..]);
      SplitPrefixed(parts[0], Join(parts[1..]));
      assert [parts[0]] + parts[1..] == parts;
    }
  }

  /** A string without a slash is a single segment. */
  lemma {:induction false} SplitSegment(p: string)
    requires '/' !in p
    ensures Split(p) == [p]
  {
    if p != [] {
      assert '/' !in p[1..] by { forall c | c in p[1..] ensures c in p {} }
      SplitSegment(p[1..]);
      assert [p[0]] + p[1..] == p;
    }
  }

  /** A slash-free segment followed by a slash starts a new segment. */
  lemma {:induction false} SplitPrefixed(p: string, rest: string)
    requires '/' !in p
    ensures Split(p + "/" + rest) == [p] + Split(rest)
  {
    if p == [] {
      assert p + "/" + rest == "/" + rest;
    } else {
      assert (p + "/" + rest)[1..] == p[1..] + "/" + rest;
      assert '/' !in p[1..] by { forall c | c in p[1..] ensures c in p {} }
      SplitPrefixed(p[1..], rest);
      assert [p[0]] + p[1..] == p;
    }
  }

  /** The last segment is the whole string when there is one segment, and
      otherwise the part after the last slash. */
  lemma {:induction false} SplitLast(s: string)
    ensures var parts := Split(s); var l := parts[|parts| - 1];
      && (|parts| == 1 ==> l == s)
      && (|parts| > 1 ==> |l| < |s| && s[|s| - |l| - 1] == '/' && s[|s| - |l|..] == l)
  {
    if s != [] {
      SplitLast(s[1..]);
      var rest := Split(s[1..]);
      var l := rest[|rest| - 1];
      if |rest| > 1 || s[0] == '/' {
        assert s[|s| - |l|..] == s[1..][|s[1..]| - |l|..];
      } else {
        assert [s[0]] + s[1..] == s;
      }
    }
  }

  /** `pipe(split("/"), last)`: the field name of a key, the part after its
      last slash (the whole key when it has none). */
  function FieldOf(key: string): (f: string)
    ensures '/' !in f
    ensures f == key || (|f| < |key| && key[|key| - |f| - 1] == '/' && key[|key| - |f|..] == f)
  {
    var parts := Split(key);
    SplitLast(key);
    parts[|parts| - 1]
  }

  /** `pipe(head, split("/"), nth(-2))`, used as an object key: the server a
      key belongs to; `nth(-2)` of a single segment is `undefined`, which
      becomes the key "undefined". */
  function ServerOf(key: string): (server: string)
    ensures |Split(key)| >= 2 ==> server == Split(key)[|Split(key)| - 2]
    ensures |Split(key)| < 2 ==> server == "undefined"
  {
    var parts := Split(key);
    if |parts| >= 2 then parts[|parts| - 2] else "undefined"
  }

  /** A key without any slash falls in the group "undefined". */
  lemma SlashlessKeyIsUndefined(key: string)
    requires '/' !in key
    ensures ServerOf(key) == "undefined"
  {
    SplitSegment(key);
  }

  /** Entry `e` stores field `field` of server `server`. */
  predicate Files(e: Entry, server: string, field: string) {
    ServerOf(e.key) == server && FieldOf(e.key) == field
  }

  /** Some entry of the listing belongs to `server`. */
  predicate Lists(entries: seq<Entry>, server: string) {
    exists i | 0 <= i < |entries| :: ServerOf(entries[i].key) == server
  }

  /** The value of the last entry that stores `field` of `server`, found by
      searching the listing from its end. */
  function LastValue(entries: seq<Entry>, server: string, field: string): Option<string> {
    if entries == [] then None
    else if Files(entries[|entries| - 1], server, field) then Some(entries[|entries| - 1].value)
    else LastValue(entries[..|entries| - 1], server, field)
  }

  /** Entry `i` is the last one of the listing that stores that field. */
  predicate IsLastFor(entries: seq<Entry>, i: int, server: string, field: string) {
    && 0 <= i < |entries|
    && Files(entries[i], server, field)
    && forall j | i < j < |entries| :: !Files(entries[j], server, field)
  }

  /** The search finds a value exactly when some entry stores the field. */
  lemma {:induction false} LastValueFound(entries: seq<Entry>, server: string, field: string)
    ensures LastValue(entries, server, field).Some? <==>
      exists i | 0 <= i < |entries| :: Files(entries[i], server, field)
  {
    if entries != [] {
      var init, n := entries[..|entries| - 1], |entries| - 1;
      LastValueFound(init, server, field);
      if !Files(entries[n], server, field) && exists i | 0 <= i < |entries| :: Files(entries[i], server, field) {
        var i :| 0 <= i < |entries| && Files(entries[i], server, field);
        assert init[i] == entries[i];
      }
      if exists i | 0 <= i < |init| :: Files(init[i], server, field) {
        var i :| 0 <= i < |init| && Files(init[i], server, field);
        assert init[i] == entries[i];
      }
    }
  }

  /** The value it finds is that of the last entry storing the field. */
  lemma {:induction false} LastValueIsLastEntry(entries: seq<Entry>, i: int, server: string, field: string)
    requires IsLastFor(entries, i, server, field)
    ensures LastValue(entries, server, field) == Some(entries[i].value)
  {
    var init, n := entries[..|entries| - 1], |entries| - 1;
    if i < n {
      assert !Files(entries[n], server, field);
      assert init[i] == entries[i];
      assert forall j | i < j < |init| :: init[j] == entries[j];
      LastValueIsLastEntry(init, i, server, field);
    }
  }

  /** A server no entry belongs to has no fields. */
  lemma UnlistedHasNoFields(entries: seq<Entry>, server: string, field: string)
    requires !Lists(entries, server)
    ensures LastValue(entries, server, field).None?
  {
    forall i | 0 <= i < |entries| ensures !Files(entries[i], server, field) {
      assert ServerOf(entries[i].key) != server;
    }
    LastValueFound(entries, server, field);
  }

  /** The servers a listing names are those its prefix names and the
      server of its last entry. */
  lemma ListsSnoc(entries: seq<Entry>, s: string)
    requires entries != []
    ensures Lists(entries, s) <==> Lists(entries[..|entries| - 1], s) || s == ServerOf(entries[|entries| - 1].key)
  {
    var init, n := entries[..|entries| - 1], |entries| - 1;
    if Lists(entries, s) && s != ServerOf(entries[n].key) {
      var i :| 0 <= i < |entries| && ServerOf(entries[i].key) == s;
      assert i != n;
      assert init[i] == entries[i];
    }
    if Lists(init, s) {
      var i :| 0 <= i < |init| && ServerOf(init[i].key) == s;
      assert init[i] == entries[i];
    }
  }

  /** The `reduceBy` over the listing: group by server, then set field to
      value, a later entry overwriting an earlier one. */
  function GroupEntries(entries: seq<Entry>): (g: map<string, map<string, string>>)
    ensures forall server :: server in g <==> Lists(entries, server)
    ensures forall server, field | server in g ::
      (field in g[server] <==> LastValue(entries, server, field).Some?) &&
      (field in g[server] ==> g[server][field] == LastValue(entries, server, field).value)
  {
    if entries == [] then map[]
    else
      var init, last := entries[..|entries| - 1], entries[|entries| - 1];
      var g := GroupEntries(init);
      var server := ServerOf(last.key);
      var fields := if server in g then g[server] else map[];
      assert forall s :: Lists(entries, s) <==> Lists(init, s) || s == server by {
        forall s ensures Lists(entries, s) <==> Lists(init, s) || s == server {
          ListsSnoc(entries, s);
        }
      }
      var g' := g[server := fields[FieldOf(last.key) := last.value]];
      assert forall s, f | s in g' ::
        (f in g'[s] <==> LastValue(entries, s, f).Some?) &&
        (f in g'[s] ==> g'[s][f] == LastValue(entries, s, f).value)
      by {
        forall s, f | s in g'
          ensures f in g'[s] <==> LastValue(entries, s, f).Some?
          ensures f in g'[s] ==> g'[s][f] == LastValue(entries, s, f).value
        {
          assert entries[..|entries| - 1] == init;
          if s == server && f != FieldOf(last.key) && server !in g {
            UnlistedHasNoFields(init, server, f);
          }
        }
      }
      g'
  }

  /** `getServers`: the grouped listing without the group "undefined". */
  function GetServers(entries: seq<Entry>): (servers: map<string, map<string, string>>)
    ensures forall server :: server in servers <==> server != "undefined" && Lists(entries, server)
    ensures forall server, field, i | server in servers && IsLastFor(entries, i, server, field) ::
      field in servers[server] && servers[server][field] == entries[i].value
    ensures forall server, field | server in servers && field in servers[server] ::
      exists i | 0 <= i < |entries| :: Files(entries[i], server, field)
  {
    var g := GroupEntries(entries);
    var r := map server | server in g && server != "undefined" :: g[server];
    forall server, field, i | server in r && IsLastFor(entries, i, server, field)
      ensures field in r[server] && r[server][field] == entries[i].value
    {
      LastValueIsLastEntry(entries, i, server, field);
    }
    forall server, field | server in r && field in r[server]
      ensures exists i | 0 <= i < |entries| :: Files(entries[i], server, field)
    {
      LastValueFound(entries, server, field);
    }
    r
  }

  /** The keys "p/s1/url" and "top" file under "s1"/"url" and "undefined". */
  lemma KeyExamples()
    ensures Files(Entry("p/s1/url", ""), "s1", "url")
    ensures ServerOf("top") == "undefined"
  {
    SplitJoin(["p", "s1", "url"]);
    assert Join(["p", "s1", "url"]) == "p/s1/url";
    SlashlessKeyIsUndefined("top");
  }

  /** The store key holding a server's weight. */
  function WeightKey(prefix: string, server: string): (key: string)
    ensures |key| == |prefix| + |server| + |"/weight"|
  {
    prefix + server + "/weight"
  }

  /** Which server a key under `prefix` holds the weight of, if any. */
  function ServerOfWeightKey(prefix: string, key: string): Option<string> {
    var n := |key| - |prefix| - |"/weight"|;
    if n >= 0 && key[..|prefix|] == prefix && key[|prefix| + n..] == "/weight" then
      Some(key[|prefix|..|prefix| + n])
    else None
  }

  /** The weight key names its server: the key decodes back to it. */
  lemma WeightKeyRoundTrip(prefix: string, server: string)
    ensures ServerOfWeightKey(prefix, WeightKey(prefix, server)) == Some(server)
  {
    var key := WeightKey(prefix, server);
    assert key[..|prefix|] == prefix;
    assert key[|prefix|..|prefix| + |server|] == server;
    assert key[|prefix| + |server|..] == "/weight";
  }

  /** Distinct servers never share a weight key. */
  lemma WeightKeyInjective(prefix: string, a: string, b: string)
    requires a != b
    ensures WeightKey(prefix, a) != WeightKey(prefix, b)
  {
    WeightKeyRoundTrip(prefix, a);
    WeightKeyRoundTrip(prefix, b);
  }

  /** The weights a store wrapper is built with, 0 and 100 when unset. */
  function WeightsOrDefault(zero: Option<int>, full: Option<int>): (w: Weights)
    ensures zero.None? ==> w.zero == 0
    ensures full.None? ==> w.full == 100
    ensures zero.Some? ==> w.zero == zero.value
    ensures full.Some? ==> w.full == full.value
  {
    Weights(zero.GetOr(0), full.GetOr(100))
  }

  /** `+(await getWeight(node))`: a missing key reads as `null`, which
      converts to 0. */
  function ReadWeight(store: map<string, int>, prefix: string, server: string): (r: int)
    ensures WeightKey(prefix, server) !in store ==> r == 0
    ensures WeightKey(prefix, server) in store ==> r == store[WeightKey(prefix, server)]
  {
    var key := WeightKey(prefix, server);
    if key in store then store[key] else 0
  }

  /** The weight a write puts under its server's key. */
  function Written(weights: Weights, w: Write): int {
    match w
    case SetZero(_) => weights.zero
    case SetFull(_) => weights.full
  }

  /** `setZeroWeight` and `setFullWeight`: put the zero or the full weight
      under the server's weight key and touch no other key. */
  function ApplyWrite(store: map<string, int>, prefix: string, weights: Weights, w: Write): (s: map<string, int>)
    ensures ReadWeight(s, prefix, w.server) == Written(weights, w)
    ensures forall server | server != w.server :: ReadWeight(s, prefix, server) == ReadWeight(store, prefix, server)
    ensures forall k | k != WeightKey(prefix, w.server) :: (k in s <==> k in store) && (k in s ==> s[k] == store[k])
  {
    assert forall server | server != w.server :: WeightKey(prefix, server) != WeightKey(prefix, w.server) by {
      forall server | server != w.server ensures WeightKey(prefix, server) != WeightKey(prefix, w.server) {
        WeightKeyInjective(prefix, server, w.server);
      }
    }
    store[WeightKey(prefix, w.server) := Written(weights, w)]
  }

  /** The last write of `ws` that names `server`, searching from the end. */
  function LastWrite(ws: seq<Write>, server: string): (last: Option<Write>)
    ensures last.Some? ==> last.value in ws && last.value.server == server
    ensures last.None? <==> forall w | w in ws :: w.server != server
  {
    if ws == [] then None
    else if ws[|ws| - 1].server == server then Some(ws[|ws| - 1])
    else
      var init := ws[..|ws| - 1];
      assert forall w | w in ws :: w in init || w == ws[|ws| - 1];
      LastWrite(init, server)
  }

  /** Searching a concatenation finds the second part's write first. */
  lemma {:induction false} LastWriteAppend(a: seq<Write>, b: seq<Write>, server: string)
    ensures LastWrite(a + b, server) == if LastWrite(b, server).Some? then LastWrite(b, server) else LastWrite(a, server)
  {
    if b == [] {
      assert a + b == a;
    } else {
      assert (a + b)[..|a + b| - 1] == a + b[..|b| - 1];
      if b[|b| - 1].server != server {
        LastWriteAppend(a, b[..|b| - 1], server);
      }
    }
  }

  /** The writes of a tick, applied in order: every server reads the weight
      of its last write, and a server no write names keeps its weight. */
  function ApplyWrites(store: map<string, int>, prefix: string, weights: Weights, ws: seq<Write>): (s: map<string, int>)
    ensures forall server ::
      ReadWeight(s, prefix, server) ==
        match LastWrite(ws, server)
        case None => ReadWeight(store, prefix, server)
        case Some(w) => Written(weights, w)
  {
    if ws == [] then store
    else ApplyWrite(ApplyWrites(store, prefix, weights, ws[..|ws| - 1]), prefix, weights, ws[|ws| - 1])
  }

  /** Applying two batches of writes one after the other is applying
      their concatenation. */
  lemma {:induction false} ApplyWritesAppend(store: map<string, int>, prefix: string, weights: Weights, a: seq<Write>, b: seq<Write>)
    ensures ApplyWrites(store, prefix, weights, a + b) == ApplyWrites(ApplyWrites(store, prefix, weights, a), prefix, weights, b)
  {
    if b == [] {
      assert a + b == a;
    } else {
      assert (a + b)[..|a + b| - 1] == a + b[..|b| - 1];
      ApplyWritesAppend(store, prefix, weights, a, b[..|b| - 1]);
    }
  }
}
