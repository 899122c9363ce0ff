/**
 * The recursive KV2 walk of the HashiCorp Vault configuration provider.
 *
 * The store is a finite tree. A node holds the answers the store gives at
 * one path: what listing that path returns and what reading it as a secret
 * returns. The walk, like the provider, decides by the NAME of a listing
 * entry whether to list it (a name ending in '/') or to read it.
 */
module HashicorpVault {
  import opened Wrappers

  /** The provider's configuration dictionary: key to possibly-null value. */
  type Config = map<string, Option<string>>

  /** One field of a secret's payload; a null value stays `None`. */
  datatype Field = Field(name: string, value: Option<string>)

  /** What listing a path returns. `NoKeys` is a null result, null data or null keys. */
  datatype Listing = ListFailed | NoKeys | Listed(entries: seq<Entry>)

  /**
   * What reading a path as a secret returns. `ReadFailed` covers a thrown
   * exception as well as a null secret or null payload (dereferencing one
   * throws inside the same try block).
   */
  datatype ReadResult = ReadFailed | Fields(fields: seq<Field>)

  /** A listing entry: its name and the store's answers at the entry's path. */
  datatype Entry = Entry(name: string, node: Node)

  datatype Node = Node(listing: Listing, secret: ReadResult)

  /** A call made to the KV2 engine, with the path and mount point it was given. */
  datatype Request = ListPaths(path: string, mount: string) | ReadSecret(path: string, mount: string)

  // ---------------------------------------------------------------------------
  // Strings and keys
  // ---------------------------------------------------------------------------

  /** `name.EndsWith("/")`, compared ordinally. */
  predicate IsFolder(name: string) {
    |name| > 0 && name[|name| - 1] == '/'
  }

  /** `s.Replace("/", ":")`: every '/' becomes ':', every other character stays. */
  function ReplaceSlashes(s: string): (r: string)
    ensures |r| == |s|
    ensures forall i :: 0 <= i < |s| ==> r[i] == (if s[i] == '/' then ':' else s[i])
    ensures '/' !in r
  {
    if s == [] then []
    else [if s[0] == '/' then ':' else s[0]] + ReplaceSlashes(s[1..])
  }

  /** The path text a possibly-null path contributes to a concatenation. */
  function PathText(path: Option<string>): string {
    match path
    case None => ""
    case Some(p) => p
  }

  /**
   * The path of a listing entry: the entry name alone when the current path
   * is null or empty, otherwise the current path followed by the name. This
   * is the same as plain concatenation with a null path read as empty.
   */
  function ChildPath(path: Option<string>, name: string): (r: string)
    ensures r == PathText(path) + name
    ensures path == None || path == Some("") ==> r == name
  {
    if path == None || path == Some("") then name else path.value + name
  }

  /** The path handed to the listing call: "/" when no path is given. */
  function ListArgument(path: Option<string>): string {
    if path == None then "/" else path.value
  }

  /**
   * The configuration key for field `field` of the secret at `leafPath`:
   * the path with each '/' turned into ':', a ':' and the field name.
   */
  function ConfigurationKey(leafPath: string, field: string): (k: string)
    ensures |k| == |leafPath| + 1 + |field|
    ensures forall i :: 0 <= i < |leafPath| ==> k[i] == (if leafPath[i] == '/' then ':' else leafPath[i])
    ensures '/' !in k[..|leafPath|]
    ensures k[|leafPath|] == ':'
    ensures k[|leafPath| + 1..] == field
  {
    var prefix := ReplaceSlashes(leafPath);
    assert (prefix + ":" + field)[..|leafPath|] == prefix;
    prefix + ":" + field
  }

  /** For a fixed secret, different field names give different keys. */
  lemma {:induction false} ConfigurationKeyFieldInjective(leafPath: string, f1: string, f2: string)
    requires ConfigurationKey(leafPath, f1) == ConfigurationKey(leafPath, f2)
    ensures f1 == f2
  {
    var k := ConfigurationKey(leafPath, f1);
    assert f1 == k[|leafPath| + 1..];
  }

  /** Replacing slashes loses nothing on paths that contain no ':'. */
  lemma {:induction false} ReplaceSlashesInjectiveWithoutColons(a: string, b: string)
    requires ':' !in a && ':' !in b
    requires ReplaceSlashes(a) == ReplaceSlashes(b)
    ensures a == b
  {
    assert |a| == |b|;
    forall i | 0 <= i < |a| ensures a[i] == b[i] {
      assert ReplaceSlashes(a)[i] == ReplaceSlashes(b)[i];
      assert a[i] != ':' && b[i] != ':';
    }
  }

  /** The key mapping is not injective: a nested secret and a flat one whose name holds ':' collide. */
  lemma KeysOfDistinctSecretsCanCollide()
    ensures ConfigurationKey("a/b", "x") == ConfigurationKey("a:b", "x")
  {
    assert ReplaceSlashes("a/b") == "a:b";
    assert ReplaceSlashes("a:b") == "a:b";
  }

  // ---------------------------------------------------------------------------
  // Writes into the dictionary
  // ---------------------------------------------------------------------------

  /** The keys of one secret's fields. */
  function FieldKeys(leafPath: string, fields: seq<Field>): set<string> {
    set f | f in fields :: ConfigurationKey(leafPath, f.name)
  }

  /**
   * `Data[key] = value` for each field in payload order. The new keys are the
   * old ones plus exactly one key per field.
   */
  function WriteFields(d: Config, leafPath: string, fields: seq<Field>): (r: Config)
    ensures r.Keys == d.Keys + FieldKeys(leafPath, fields)
  {
    if fields == [] then d
    else
      var last := fields[|fields| - 1];
      var front := fields[..|fields| - 1];
      assert fields == front + [last];
      assert FieldKeys(leafPath, fields) == FieldKeys(leafPath, front) + {ConfigurationKey(leafPath, last.name)};
      WriteFields(d, leafPath, front)[ConfigurationKey(leafPath, last.name) := last.value]
  }

  /** The value stored for a field name is that of its last occurrence, null included. */
  lemma {:induction false} WriteFieldsLastWins(d: Config, leafPath: string, fields: seq<Field>, j: nat)
    requires j < |fields|
    requires forall k :: j < k < |fields| ==> fields[k].name != fields[j].name
    ensures ConfigurationKey(leafPath, fields[j].name) in WriteFields(d, leafPath, fields)
    ensures WriteFields(d, leafPath, fields)[ConfigurationKey(leafPath, fields[j].name)] == fields[j].value
  {
    var n := |fields| - 1;
    var front := fields[..n];
    var key := ConfigurationKey(leafPath, fields[j].name);
    var lastKey := ConfigurationKey(leafPath, fields[n].name);
    assert WriteFields(d, leafPath, fields) == WriteFields(d, leafPath, front)[lastKey := fields[n].value];
    if j < n {
      assert front[j] == fields[j];
      assert forall k :: j < k < |front| ==> front[k].name != front[j].name;
      WriteFieldsLastWins(d, leafPath, front, j);
      if lastKey == key {
        ConfigurationKeyFieldInjective(leafPath, fields[n].name, fields[j].name);
        assert false;
      }
    }
  }

  /** Keys that no field maps to keep their old value. */
  lemma {:induction false} WriteFieldsKeepsOthers(d: Config, leafPath: string, fields: seq<Field>, k: string)
    requires k in d && k !in FieldKeys(leafPath, fields)
    ensures WriteFields(d, leafPath, fields)[k] == d[k]
  {
    if fields != [] {
      var front := fields[..|fields| - 1];
      assert FieldKeys(leafPath, front) <= FieldKeys(leafPath, fields);
      WriteFieldsKeepsOthers(d, leafPath, front, k);
    }
  }

  /** Writing fields over `d` is `d` overridden by the same writes into an empty dictionary. */
  lemma {:induction false} WriteFieldsOverlay(d: Config, leafPath: string, fields: seq<Field>)
    ensures WriteFields(d, leafPath, fields) == d + WriteFields(map[], leafPath, fields)
  {
    if fields != [] {
      WriteFieldsOverlay(d, leafPath, fields[..|fields| - 1]);
    }
  }

  // ---------------------------------------------------------------------------
  // The walk: what it writes and what it asks the store
  // ---------------------------------------------------------------------------

  /**
   * The dictionary after walking `node` reached at `path`. A listing that
   * fails or has no keys leaves the dictionary as it is; otherwise the
   * entries are processed in order.
   */
  function Walk(d: Config, node: Node, path: Option<string>): Config
    decreases node, 1
  {
    match node.listing
    case Listed(entries) => WalkEntries(d, entries, path)
    case _ => d
  }

  /**
   * Processing listing entries in order: a folder is walked (it catches its
   * own failures, so the parent goes on), a secret's fields are written, and
   * a failing read ends this listing keeping what was written before.
   */
  function WalkEntries(d: Config, entries: seq<Entry>, path: Option<string>): Config
    decreases entries, 0
  {
    if entries == [] then d
    else
      var e := entries[0];
      var newPath := ChildPath(path, e.name);
      if IsFolder(e.name) then WalkEntries(Walk(d, e.node, Some(newPath)), entries[1..], path)
      else
        match e.node.secret
        case ReadFailed => d
        case Fields(fields) => WalkEntries(WriteFields(d, newPath, fields), entries[1..], path)
  }

  /** The calls the walk makes to the store, in order. */
  function Trace(node: Node, path: Option<string>, mount: string): seq<Request>
    decreases node, 1
  {
    [ListPaths(ListArgument(path), mount)] +
    match node.listing
    case Listed(entries) => TraceEntries(entries, path, mount)
    case _ => []
  }

  function TraceEntries(entries: seq<Entry>, path: Option<string>, mount: string): seq<Request>
    decreases entries, 0
  {
    if entries == [] then []
    else
      var e := entries[0];
      var newPath := ChildPath(path, e.name);
      if IsFolder(e.name) then Trace(e.node, Some(newPath), mount) + TraceEntries(entries[1..], path, mount)
      else
        [ReadSecret(newPath, mount)] +
        match e.node.secret
        case ReadFailed => []
        case Fields(_) => TraceEntries(entries[1..], path, mount)
  }

  /** Every key some secret field of the tree maps to, failures or not. */
  ghost function LeafKeys(node: Node, path: Option<string>): set<string>
    decreases node, 1
  {
    match node.listing
    case Listed(entries) => EntryLeafKeys(entries, path)
    case _ => {}
  }

  ghost function EntryLeafKeys(entries: seq<Entry>, path: Option<string>): set<string>
    decreases entries, 0
  {
    if entries == [] then {}
    else
      var e := entries[0];
      var newPath := ChildPath(path, e.name);
      var here :=
        if IsFolder(e.name) then LeafKeys(e.node, Some(newPath))
        else match e.node.secret
          case ReadFailed => {}
          case Fields(fields) => FieldKeys(newPath, fields);
      here + EntryLeafKeys(entries[1..], path)
  }

  /** No secret reachable through listed folders fails to be read. */
  ghost predicate ReadsSucceed(node: Node)
    decreases node, 1
  {
    match node.listing
    case Listed(entries) => EntriesReadsSucceed(entries)
    case _ => true
  }

  ghost predicate EntriesReadsSucceed(entries: seq<Entry>)
    decreases entries, 0
  {
    entries == [] ||
    ((if IsFolder(entries[0].name) then ReadsSucceed(entries[0].node) else entries[0].node.secret.Fields?) &&
     EntriesReadsSucceed(entries[1..]))
  }

  /** Every entry name in the tree is non-empty (the store never lists an empty name). */
  ghost predicate NamedEntries(node: Node)
    decreases node, 1
  {
    match node.listing
    case Listed(entries) => EntriesNamed(entries)
    case _ => true
  }

  ghost predicate EntriesNamed(entries: seq<Entry>)
    decreases entries, 0
  {
    entries == [] ||
    (entries[0].name != "" && NamedEntries(entries[0].node) && EntriesNamed(entries[1..]))
  }

  // ---------------------------------------------------------------------------
  // Properties of the walk
  // ---------------------------------------------------------------------------

  /**
   * The walk never removes or rolls back anything: its result is the old
   * dictionary overridden by what the same walk writes into an empty one.
   */
  lemma {:induction false} WalkOverlay(d: Config, node: Node, path: Option<string>)
    ensures Walk(d, node, path) == d + Walk(map[], node, path)
    decreases node, 1
  {
    match node.listing
    case Listed(entries) => WalkEntriesOverlay(d, entries, path);
    case _ =>
  }

  lemma {:induction false} WalkEntriesOverlay(d: Config, entries: seq<Entry>, path: Option<string>)
    ensures WalkEntries(d, entries, path) == d + WalkEntries(map[], entries, path)
    decreases entries, 0
  {
    if entries != [] {
      var e := entries[0];
      var newPath := ChildPath(path, e.name);
      var rest := entries[1..];
      if IsFolder(e.name) {
        var sub := Walk(map[], e.node, Some(newPath));
        WalkOverlay(d, e.node, Some(newPath));
        WalkEntriesOverlay(Walk(d, e.node, Some(newPath)), rest, path);
        WalkEntriesOverlay(sub, rest, path);
        OverrideAssociative(d, sub, WalkEntries(map[], rest, path));
      } else if e.node.secret.Fields? {
        var fields := e.node.secret.fields;
        var w := WriteFields(map[], newPath, fields);
        WriteFieldsOverlay(d, newPath, fields);
        WalkEntriesOverlay(WriteFields(d, newPath, fields), rest, path);
        WalkEntriesOverlay(w, rest, path);
        OverrideAssociative(d, w, WalkEntries(map[], rest, path));
      }
    }
  }

  /** A walk lists its path, then, when the listing has entries, processes all of them. */
  lemma WalkUnfold(d: Config, node: Node, path: Option<string>, mount: string)
    ensures node.listing.Listed? ==> Walk(d, node, path) == WalkEntries(d, node.listing.entries, path)
    ensures !node.listing.Listed? ==> Walk(d, node, path) == d
    ensures node.listing.Listed? ==>
              Trace(node, path, mount) == [ListPaths(ListArgument(path), mount)] + TraceEntries(node.listing.entries, path, mount)
    ensures !node.listing.Listed? ==> Trace(node, path, mount) == [ListPaths(ListArgument(path), mount)]
  {
  }

  /** Past the last entry nothing more is written or asked. */
  lemma EntriesDone(d: Config, entries: seq<Entry>, path: Option<string>, mount: string)
    ensures WalkEntries(d, entries[|entries|..], path) == d
    ensures TraceEntries(entries[|entries|..], path, mount) == []
  {
    assert entries[|entries|..] == [];
  }

  lemma AppendAssociative(a: seq<Request>, b: seq<Request>, c: seq<Request>)
    ensures (a + b) + c == a + (b + c)
  {
  }

  lemma OverrideAssociative(a: Config, b: Config, c: Config)
    ensures (a + b) + c == a + (b + c)
  {
  }

  /** Data only grows: every key present before the walk is present after it. */
  lemma WalkKeepsKeys(d: Config, node: Node, path: Option<string>)
    ensures d.Keys <= Walk(d, node, path).Keys
  {
    WalkOverlay(d, node, path);
  }

  /** Loading the same store twice gives the same dictionary as loading it once. */
  lemma WalkTwice(d: Config, node: Node, path: Option<string>)
    ensures Walk(Walk(d, node, path), node, path) == Walk(d, node, path)
  {
    var w := Walk(map[], node, path);
    WalkOverlay(d, node, path);
    WalkOverlay(d + w, node, path);
    assert (d + w) + w == d + w;
  }

  /**
   * Every key the walk adds belongs to a field of a secret in the tree; when
   * no secret read fails, every such key is added.
   */
  lemma {:induction false} WalkKeys(d: Config, node: Node, path: Option<string>)
    ensures Walk(d, node, path).Keys <= d.Keys + LeafKeys(node, path)
    ensures ReadsSucceed(node) ==> Walk(d, node, path).Keys == d.Keys + LeafKeys(node, path)
    decreases node, 1
  {
    match node.listing
    case Listed(entries) => WalkEntriesKeys(d, entries, path);
    case _ =>
  }

  lemma {:induction false} WalkEntriesKeys(d: Config, entries: seq<Entry>, path: Option<string>)
    ensures WalkEntries(d, entries, path).Keys <= d.Keys + EntryLeafKeys(entries, path)
    ensures EntriesReadsSucceed(entries) ==> WalkEntries(d, entries, path).Keys == d.Keys + EntryLeafKeys(entries, path)
    decreases entries, 0
  {
    if entries != [] {
      var e := entries[0];
      var newPath := ChildPath(path, e.name);
      var rest := entries[1..];
      if IsFolder(e.name) {
        WalkKeys(d, e.node, Some(newPath));
        WalkEntriesKeys(Walk(d, e.node, Some(newPath)), rest, path);
      } else if e.node.secret.Fields? {
        WalkEntriesKeys(WriteFields(d, newPath, e.node.secret.fields), rest, path);
      }
    }
  }

  /**
   * A failing secret read stops the rest of its listing: the result is what
   * the entries before it wrote (nothing is rolled back), and the read is
   * the last call made for that listing.
   */
  lemma {:induction false} FailedReadEndsListing(d: Config, entries: seq<Entry>, path: Option<string>, mount: string, j: nat)
    requires j < |entries|
    requires !IsFolder(entries[j].name) && entries[j].node.secret == ReadFailed
    requires NoFailedReadBefore(entries, j)
    ensures WalkEntries(d, entries, path) == WalkEntries(d, entries[..j], path)
    ensures TraceEntries(entries, path, mount) ==
            TraceEntries(entries[..j], path, mount) + [ReadSecret(ChildPath(path, entries[j].name), mount)]
  {
    FailedReadKeepsPrefix(d, entries, path, j);
    FailedReadIsLastCall(entries, path, mount, j);
  }

  lemma {:induction false} FailedReadKeepsPrefix(d: Config, entries: seq<Entry>, path: Option<string>, j: nat)
    requires j < |entries|
    requires !IsFolder(entries[j].name) && entries[j].node.secret == ReadFailed
    requires NoFailedReadBefore(entries, j)
    ensures WalkEntries(d, entries, path) == WalkEntries(d, entries[..j], path)
    decreases j
  {
    if j == 0 {
      assert entries[..0] == [];
    } else {
      assert entries[1..][j - 1] == entries[j];
      NoFailedReadBeforeTail(entries, j);
      WalkEntriesHead(d, entries, path, j);
      FailedReadKeepsPrefix(Visit(d, entries[0], path), entries[1..], path, j - 1);
    }
  }

  /** What an entry that is not a failing read writes: its subtree, or its secret's fields. */
  ghost function Visit(d: Config, e: Entry, path: Option<string>): Config {
    if IsFolder(e.name) then Walk(d, e.node, Some(ChildPath(path, e.name)))
    else if e.node.secret.Fields? then WriteFields(d, ChildPath(path, e.name), e.node.secret.fields)
    else d
  }

  /** The walk of a listing, and of a non-empty prefix of it, past a first entry that is not a failing read. */
  lemma WalkEntriesHead(d: Config, entries: seq<Entry>, path: Option<string>, j: nat)
    requires 0 < j <= |entries|
    requires NoFailedReadBefore(entries, j)
    ensures WalkEntries(d, entries, path) == WalkEntries(Visit(d, entries[0], path), entries[1..], path)
    ensures WalkEntries(d, entries[..j], path) == WalkEntries(Visit(d, entries[0], path), entries[1..][..j - 1], path)
  {
    assert IsFolder(entries[0].name) || entries[0].node.secret.Fields?;
    assert entries[..j][0] == entries[0];
    assert entries[..j][1..] == entries[1..][..j - 1];
  }

  lemma {:induction false} FailedReadIsLastCall(entries: seq<Entry>, path: Option<string>, mount: string, j: nat)
    requires j < |entries|
    requires !IsFolder(entries[j].name) && entries[j].node.secret == ReadFailed
    requires NoFailedReadBefore(entries, j)
    ensures TraceEntries(entries, path, mount) ==
            TraceEntries(entries[..j], path, mount) + [ReadSecret(ChildPath(path, entries[j].name), mount)]
    decreases j
  {
    var e := entries[0];
    var newPath := ChildPath(path, e.name);
    if j > 0 {
      var front := entries[..j];
      assert front[0] == e && front[1..] == entries[1..][..j - 1];
      assert entries[1..][j - 1] == entries[j];
      NoFailedReadBeforeTail(entries, j);
      assert IsFolder(e.name) || e.node.secret.Fields? by { assert entries[0] == e; }
      var head := if IsFolder(e.name) then Trace(e.node, Some(newPath), mount) else [ReadSecret(newPath, mount)];
      assert TraceEntries(entries, path, mount) == head + TraceEntries(entries[1..], path, mount);
      assert TraceEntries(front, path, mount) == head + TraceEntries(front[1..], path, mount);
      FailedReadIsLastCall(entries[1..], path, mount, j - 1);
      AppendAssociative(head, TraceEntries(front[1..], path, mount), [ReadSecret(ChildPath(path, entries[j].name), mount)]);
    }
  }

  /** The entries before `up` to which no failing secret read belongs. */
  ghost predicate NoFailedReadBefore(entries: seq<Entry>, up: nat)
    requires up <= |entries|
  {
    forall k :: 0 <= k < up ==> IsFolder(entries[k].name) || entries[k].node.secret.Fields?
  }

  lemma NoFailedReadBeforeTail(entries: seq<Entry>, j: nat)
    requires 0 < j <= |entries|
    requires NoFailedReadBefore(entries, j)
    ensures NoFailedReadBefore(entries[1..], j - 1)
  {
    forall k | 0 <= k < j - 1 ensures IsFolder(entries[1..][k].name) || entries[1..][k].node.secret.Fields? {
      assert entries[1..][k] == entries[k + 1];
    }
  }

  /**
   * Error isolation: once the entries before `j` contain no failing read,
   * the later siblings write their keys on top of whatever the earlier ones
   * did, and what they write does not depend on the subtrees before them,
   * however those fail.
   */
  lemma {:induction false} LaterSiblingsUnaffected(d: Config, entries: seq<Entry>, path: Option<string>, j: nat)
    requires j <= |entries|
    requires NoFailedReadBefore(entries, j)
    ensures WalkEntries(d, entries, path) == WalkEntries(d, entries[..j], path) + WalkEntries(map[], entries[j..], path)
    decreases j
  {
    if j == 0 {
      WalkEntriesOverlay(d, entries, path);
    } else {
      assert entries[j..] == entries[1..][j - 1..];
      NoFailedReadBeforeTail(entries, j);
      WalkEntriesHead(d, entries, path, j);
      LaterSiblingsUnaffected(Visit(d, entries[0], path), entries[1..], path, j - 1);
    }
  }

  /** A folder whose listing fails or is empty contributes nothing; leaving it out changes no key. */
  lemma {:induction false} FailedFolderContributesNothing(d: Config, entries: seq<Entry>, path: Option<string>, j: nat)
    requires j < |entries|
    requires IsFolder(entries[j].name) && !entries[j].node.listing.Listed?
    ensures WalkEntries(d, entries, path) == WalkEntries(d, entries[..j] + entries[j + 1..], path)
    decreases j
  {
    var e := entries[0];
    var newPath := ChildPath(path, e.name);
    var without := entries[..j] + entries[j + 1..];
    if j == 0 {
      assert without == entries[1..];
    } else {
      assert without[0] == e;
      assert without[1..] == entries[1..][..j - 1] + entries[1..][j..];
      if IsFolder(e.name) {
        FailedFolderContributesNothing(Walk(d, e.node, Some(newPath)), entries[1..], path, j - 1);
      } else if e.node.secret.Fields? {
        FailedFolderContributesNothing(WriteFields(d, newPath, e.node.secret.fields), entries[1..], path, j - 1);
      }
    }
  }

  /** The walk's first call lists the given path, or "/" when there is none. */
  lemma WalkListsItsPathFirst(node: Node, path: Option<string>, mount: string)
    ensures Trace(node, path, mount)[0] == ListPaths(if path == None then "/" else path.value, mount)
  {
  }

  /** Every call the walk makes uses the configured mount point. */
  lemma {:induction false} TraceUsesMount(node: Node, path: Option<string>, mount: string)
    ensures forall r :: r in Trace(node, path, mount) ==> r.mount == mount
    decreases node, 1
  {
    match node.listing
    case Listed(entries) => TraceEntriesUsesMount(entries, path, mount);
    case _ =>
  }

  lemma {:induction false} TraceEntriesUsesMount(entries: seq<Entry>, path: Option<string>, mount: string)
    ensures forall r :: r in TraceEntries(entries, path, mount) ==> r.mount == mount
    decreases entries, 0
  {
    if entries != [] {
      var e := entries[0];
      var newPath := ChildPath(path, e.name);
      if IsFolder(e.name) {
        TraceUsesMount(e.node, Some(newPath), mount);
      }
      TraceEntriesUsesMount(entries[1..], path, mount);
    }
  }

  /**
   * Folders are listed and never read; secrets are read and never listed:
   * starting from the root, or from a folder path, and with non-empty
   * entry names, every listed path ends in '/' and no read path does.
   */
  lemma {:induction false} TraceShapes(node: Node, path: Option<string>, mount: string)
    requires path == None || IsFolder(path.value)
    requires NamedEntries(node)
    ensures forall r :: r in Trace(node, path, mount) ==> (r.ListPaths? <==> IsFolder(r.path))
    decreases node, 1
  {
    match node.listing
    case Listed(entries) => TraceEntriesShapes(entries, path, mount);
    case _ =>
  }

  lemma {:induction false} TraceEntriesShapes(entries: seq<Entry>, path: Option<string>, mount: string)
    requires path == None || IsFolder(path.value)
    requires EntriesNamed(entries)
    ensures forall r :: r in TraceEntries(entries, path, mount) ==> (r.ListPaths? <==> IsFolder(r.path))
    decreases entries, 0
  {
    if entries != [] {
      var e := entries[0];
      var newPath := ChildPath(path, e.name);
      assert newPath[|newPath| - 1] == e.name[|e.name| - 1];
      if IsFolder(e.name) {
        TraceShapes(e.node, Some(newPath), mount);
      }
      TraceEntriesShapes(entries[1..], path, mount);
    }
  }

  // ---------------------------------------------------------------------------
  // The provider
  // ---------------------------------------------------------------------------

  /**
   * The provider: the configuration dictionary it fills and the mount point
   * from its source. `Requests` records the calls made to the store.
   */
  class VaultConfigurationProvider {
    const MountPoint: string
    var Data: Config
    ghost var Requests: seq<Request>

    constructor (mountPoint: string)
      ensures MountPoint == mountPoint
      ensures Data == map[] && Requests == []
    {
      MountPoint := mountPoint;
      Data := map[];
      Requests := [];
    }

    /** Walks the whole store from the root, under the configured mount point. */
    method Load(store: Node)
      modifies this
      ensures Data == Walk(old(Data), store, None)
      ensures Requests == old(Requests) + Trace(store, None, MountPoint)
    {
      LoadRecursive(store, None, MountPoint);
    }

    /** Lists `path` (or the root) and processes its entries; every failure ends this call only. */
    method LoadRecursive(node: Node, path: Option<string>, mountPoint: string)
      modifies this
      ensures Data == Walk(old(Data), node, path)
      ensures Requests == old(Requests) + Trace(node, path, mountPoint)
      decreases node, 1
    {
      var listed := ListPaths(if path == None then "/" else path.value, mountPoint);
      Requests := Requests + [listed];
      WalkUnfold(old(Data), node, path, mountPoint);
      if node.listing.Listed? {
        LoadListing(node.listing.entries, path, mountPoint);
        AppendAssociative(old(Requests), [listed], TraceEntries(node.listing.entries, path, mountPoint));
      }
    }

    /** The entries of one listing, in order, until a secret read fails. */
    method LoadListing(entries: seq<Entry>, path: Option<string>, mountPoint: string)
      modifies this
      ensures Data == WalkEntries(old(Data), entries, path)
      ensures Requests == old(Requests) + TraceEntries(entries, path, mountPoint)
      decreases entries, 1
    {
      ghost var target := WalkEntries(Data, entries, path);
      ghost var calls := Requests + TraceEntries(entries, path, mountPoint);
      assert entries[0..] == entries;
      var i := 0;
      while i < |entries|
        invariant 0 <= i <= |entries|
        invariant target == WalkEntries(Data, entries[i..], path)
        invariant calls == Requests + TraceEntries(entries[i..], path, mountPoint)
      {
        var stop := LoadEntry(entries, i, path, mountPoint);
        if stop {
          return;
        }
        i := i + 1;
      }
      EntriesDone(Data, entries, path, mountPoint);
    }

    /**
     * Entry `i` of a listing at `path`: a folder is walked, a secret is read
     * and its fields stored. `stop` is set when the read fails, which ends
     * the listing.
     */
    method LoadEntry(entries: seq<Entry>, i: nat, path: Option<string>, mountPoint: string) returns (stop: bool)
      requires i < |entries|
      modifies this
      ensures stop <==> !IsFolder(entries[i].name) && entries[i].node.secret.ReadFailed?
      ensures stop ==> Data == WalkEntries(old(Data), entries[i..], path)
      ensures stop ==> Requests == old(Requests) + TraceEntries(entries[i..], path, mountPoint)
      ensures !stop ==> Data == Visit(old(Data), entries[i], path)
      ensures !stop ==> WalkEntries(Data, entries[i + 1..], path) == WalkEntries(old(Data), entries[i..], path)
      ensures !stop ==> Requests + TraceEntries(entries[i + 1..], path, mountPoint) ==
                        old(Requests) + TraceEntries(entries[i..], path, mountPoint)
      decreases entries, 0
    {
      var e := entries[i];
      assert entries[i..][0] == e && entries[i..][1..] == entries[i + 1..];
      var newPath := if path == None || path == Some("") then e.name else path.value + e.name;
      stop := false;
      if IsFolder(e.name) {
        LoadRecursive(e.node, Some(newPath), mountPoint);
        AppendAssociative(old(Requests), Trace(e.node, Some(newPath), mountPoint), TraceEntries(entries[i + 1..], path, mountPoint));
      } else {
        Requests := Requests + [ReadSecret(newPath, mountPoint)];
        match e.node.secret
        case ReadFailed =>
          stop := true;
        case Fields(fields) =>
          WriteSecret(newPath, fields);
          AppendAssociative(old(Requests), [ReadSecret(newPath, mountPoint)], TraceEntries(entries[i + 1..], path, mountPoint));
      }
    }

    /** Stores every field of the secret at `leafPath` under its configuration key. */
    method WriteSecret(leafPath: string, fields: seq<Field>)
      modifies this`Data
      ensures Data == WriteFields(old(Data), leafPath, fields)
    {
      var j := 0;
      while j < |fields|
        invariant 0 <= j <= |fields|
        invariant Data == WriteFields(old(Data), leafPath, fields[..j])
      {
        assert fields[..j + 1][..j] == fields[..j];
        var key := ReplaceSlashes(leafPath) + ":" + fields[j].name;
        Data := Data[key := fields[j].value];
        j := j + 1;
      }
      assert fields[..j] == fields;
    }
  }

  // ---------------------------------------------------------------------------
  // Worked examples
  // ---------------------------------------------------------------------------

  function Secret(fields: seq<Field>): Node {
    Node(NoKeys, Fields(fields))
  }

  function Folder(entries: seq<Entry>): Node {
    Node(Listed(entries), ReadFailed)
  }

  /** The folder a/ of the examples, holding the secret b. */
  function FolderA(b: Node): Entry {
    Entry("a/", Folder([Entry("b", b)]))
  }

  /** The secret c of the examples, with x = "3". */
  function SecretC(): Entry {
    Entry("c", Secret([Field("x", Some("3"))]))
  }

  lemma SecretCExample(d: Config)
    ensures WalkEntries(d, [SecretC()], None) == d["c:x" := Some("3")]
  {
    var fields := [Field("x", Some("3"))];
    assert ChildPath(None, "c") == "c";
    assert ReplaceSlashes("c") == "c";
    assert ConfigurationKey("c", "x") == "c:x";
    assert fields[..0] == [];
    assert WriteFields(d, "c", fields) == d["c:x" := Some("3")];
    assert [SecretC()][1..] == [];
  }

  lemma FolderAExample()
    ensures Walk(map[], FolderA(Secret([Field("x", Some("1")), Field("y", Some("2"))])).node, Some("a/"))
         == map["a:b:x" := Some("1"), "a:b:y" := Some("2")]
  {
    var fields := [Field("x", Some("1")), Field("y", Some("2"))];
    assert ChildPath(Some("a/"), "b") == "a/b";
    assert ReplaceSlashes("a/b") == "a:b";
    assert ConfigurationKey("a/b", "x") == "a:b:x";
    assert ConfigurationKey("a/b", "y") == "a:b:y";
    assert fields[..1] == [Field("x", Some("1"))];
    assert WriteFields(map[], "a/b", fields) == map["a:b:x" := Some("1"), "a:b:y" := Some("2")];
  }

  /** {a/: {b: {x: "1", y: "2"}}, c: {x: "3"}} flattens to a:b:x, a:b:y and c:x. */
  lemma FlattenExample()
    ensures Walk(map[], Folder([FolderA(Secret([Field("x", Some("1")), Field("y", Some("2"))])), SecretC()]), None)
         == map["a:b:x" := Some("1"), "a:b:y" := Some("2"), "c:x" := Some("3")]
  {
    var a := FolderA(Secret([Field("x", Some("1")), Field("y", Some("2"))]));
    var ab := map["a:b:x" := Some("1"), "a:b:y" := Some("2")];
    FolderAExample();
    SecretCExample(ab);
    assert [a, SecretC()][1..] == [SecretC()];
    assert WalkEntries(map[], [a, SecretC()], None) == WalkEntries(ab, [SecretC()], None);
  }

  /** When reading a/b fails, the sibling c still contributes c:x. */
  lemma FailedSubtreeExample()
    ensures Walk(map[], Folder([FolderA(Node(NoKeys, ReadFailed)), SecretC()]), None) == map["c:x" := Some("3")]
  {
    var a := FolderA(Node(NoKeys, ReadFailed));
    assert Walk(map[], a.node, Some("a/")) == map[];
    SecretCExample(map[]);
    assert [a, SecretC()][1..] == [SecretC()];
    assert WalkEntries(map[], [a, SecretC()], None) == WalkEntries(map[], [SecretC()], None);
  }
}
