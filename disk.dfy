/** The note network over an abstract disk: a map from paths (relative to the network's
    root) to files and directories. The functions here say what each network operation
    reads and writes; the classes in NetworkModel run them step by step. */
module Disk {
  import opened Text
  import opened Errors
  import opened Keys
  import opened NoteText

  datatype Entry = File(text: string) | Dir

  /** The files and directories under the root. The root itself is not an entry. */
  type FS = map<Path, Entry>

  /** `key in network`: the key's path exists, as a file or as a directory. */
  predicate Exists(fs: FS, key: string)
  {
    NodePath(key) in fs
  }

  /** The dispatch of `network[key]`: a link-bearing node for a key without ':' or whose
      first part is a note type. */
  predicate IsNoteKey(key: string)
  {
    var parts := Split(key, ':');
    |parts| == 1 || parts[0] in NoteTypes
  }

  /** A node as `network[key]` returns it: its key and whether it bears links. */
  datatype NodeRef = NodeRef(key: string, isNote: bool)

  /** `network[key]`. */
  function Lookup(fs: FS, key: string): (r: Result<NodeRef>)
    ensures r.Ok? <==> Exists(fs, key)
    ensures r.Ok? ==> r.value.key == key && (r.value.isNote <==> KeyType(key) in NoteTypes)
    ensures r.Err? ==> r.error == KeyNotFound(key)
  {
    var node := NodeRef(key, IsNoteKey(key));
    if NodePath(key) in fs then Ok(node) else Err(KeyNotFound(key))
  }

  /** `Node.contents`: reading a missing path or a directory fails. */
  function Contents(fs: FS, key: string): Result<string>
  {
    var p := NodePath(key);
    if p in fs && fs[p].File? then Ok(fs[p].text) else Err(ReadFailed(key))
  }

  /** The links of the file at a path, none if there is no file there. */
  function LinksIn(fs: FS, p: Path): seq<string>
  {
    if p in fs && fs[p].File? then Links(fs[p].text) else []
  }

  /** `NoteNode.links` of a readable note (and nothing for an unreadable one). */
  function LinksAt(fs: FS, key: string): seq<string>
  {
    LinksIn(fs, NodePath(key))
  }

  /** `target in <the successors named by ks>`: resolve the keys in order and stop at the
      first one equal to the target; a key that resolves to nothing raises on the way. */
  function ScanFor(fs: FS, ks: seq<string>, target: string): (r: Result<bool>)
    ensures r == Ok(true) ==> target in ks
    ensures r == Ok(false) ==> target !in ks
    ensures r.Err? ==> r.error.KeyNotFound? && r.error.key in ks && !Exists(fs, r.error.key)
    ensures (forall i :: 0 <= i < |ks| ==> Exists(fs, ks[i])) ==> r == Ok(target in ks)
    decreases |ks|
  {
    if ks == [] then Ok(false)
    else if NodePath(ks[0]) !in fs then Err(KeyNotFound(ks[0]))
    else if ks[0] == target then Ok(true)
    else ScanFor(fs, ks[1..], target)
  }

  /** `target in node.neighbors`: read the note, then scan its links lazily. */
  function LinksTo(fs: FS, from: string, target: string): (r: Result<bool>)
    ensures Contents(fs, from).Err? ==> r == Err(ReadFailed(from))
    ensures r.Ok? ==> Contents(fs, from).Ok?
    ensures r == Ok(true) ==> target in LinksAt(fs, from)
    ensures r == Ok(false) ==> target !in LinksAt(fs, from)
    ensures Contents(fs, from).Ok? && (forall y :: y in LinksAt(fs, from) ==> Exists(fs, y)) ==>
      r == Ok(target in LinksAt(fs, from))
  {
    var c := Contents(fs, from);
    if c.Err? then Err(c.error) else ScanFor(fs, Links(c.value), target)
  }

  /** The keys of `ks` whose type is among `types`, in their order and with their repeats. */
  function Kept(ks: seq<string>, types: set<string>): seq<string>
    decreases |ks|
  {
    if ks == [] then []
    else (if KeyType(ks[0]) in types then [ks[0]] else []) + Kept(ks[1..], types)
  }

  /** Each key of a kept type occurs as often as in `ks`; the others not at all. */
  lemma {:induction false} KeptCounts(ks: seq<string>, types: set<string>, x: string)
    ensures multiset(Kept(ks, types))[x] == if KeyType(x) in types then multiset(ks)[x] else 0
    decreases |ks|
  {
    if ks != [] {
      assert ks == [ks[0]] + ks[1..];
      KeptCounts(ks[1..], types, x);
    }
  }

  /** Keeping commutes with concatenation: the kept keys keep their relative order. */
  lemma {:induction false} KeptAppend(a: seq<string>, b: seq<string>, types: set<string>)
    ensures Kept(a + b, types) == Kept(a, types) + Kept(b, types)
    decreases |a|
  {
    if a == [] {
      assert a + b == b;
    } else {
      var head := if KeyType(a[0]) in types then [a[0]] else [];
      assert (a + b)[0] == a[0] && (a + b)[1..] == a[1..] + b;
      KeptAppend(a[1..], b, types);
      calc {
        Kept(a + b, types);
        head + Kept(a[1..] + b, types);
        head + (Kept(a[1..], types) + Kept(b, types));
        (head + Kept(a[1..], types)) + Kept(b, types);
      }
    }
  }

  /** `[n for n in successors if n.type in types]` over the links `ks`: every link is
      resolved in order, the first dangling one raises, and those of the given types are kept. */
  function OfTypes(fs: FS, ks: seq<string>, types: set<string>): (r: Result<seq<string>>)
    ensures r.Ok? <==> forall i :: 0 <= i < |ks| ==> Exists(fs, ks[i])
    ensures r.Ok? ==> forall x :: x in r.value <==> x in ks && KeyType(x) in types
    ensures r.Ok? ==> r.value == Kept(ks, types)
    ensures r.Err? ==> r.error.KeyNotFound? && r.error.key in ks && !Exists(fs, r.error.key)
    decreases |ks|
  {
    if ks == [] then Ok([])
    else if !Exists(fs, ks[0]) then Err(KeyNotFound(ks[0]))
    else
      var rest := OfTypes(fs, ks[1..], types);
      if rest.Err? then rest
      else if KeyType(ks[0]) in types then Ok([ks[0]] + rest.value)
      else rest
  }

  /** The neighbours of the note `u` whose type is among `types`. */
  function NeighborsOfTypes(fs: FS, u: string, types: set<string>): (r: Result<seq<string>>)
    ensures Contents(fs, u).Err? ==> r == Err(ReadFailed(u))
    ensures r.Ok? <==> Contents(fs, u).Ok? && forall y :: y in LinksAt(fs, u) ==> Exists(fs, y)
    ensures r.Ok? ==> forall x :: x in r.value <==> x in LinksAt(fs, u) && KeyType(x) in types
    ensures r.Ok? ==> r.value == Kept(LinksAt(fs, u), types)
  {
    var c := Contents(fs, u);
    if c.Err? then Err(c.error) else OfTypes(fs, Links(c.value), types)
  }

  /** What a write-performing operation leaves behind: the disk as it is when it stops,
      and the exception it raised, if any (writes made before it stay). */
  datatype Outcome = Outcome(fs: FS, err: Option<Error>)

  /** `add_link`'s section: the other node's type, capitalised, plus "s". */
  function SectionName(other: string): string
  {
    Capitalize(KeyType(other)) + "s"
  }

  /** `add_link`'s line: `- [[other]]`. */
  function LinkLine(other: string): string
  {
    "- [[" + other + "]]"
  }

  /** The text `add_link` writes back: the link line inserted into its section. */
  function WithLink(text: string, other: string): string
  {
    Join(SectionInserted(Split(text, '\n'), Header(SectionName(other)), LinkLine(other)), '\n')
  }

  lemma HeaderHasNoBracket(other: string)
    requires CleanKey(other)
    ensures '[' !in Header(SectionName(other))
  {
    var t := KeyType(other);
    assert '[' !in t by {
      if ':' in other {
        forall i | 0 <= i < |t| ensures t[i] != '[' {
          assert t[i] == other[i];
        }
      } else {
        assert t == "topic";
      }
    }
    var h := Header(SectionName(other));
    var c := Capitalize(t);
    assert h == "## :" + c + "s" + ":";
    forall i | 0 <= i < |h| ensures h[i] != '[' {
      if 4 <= i < 4 + |c| {
        assert h[i] == c[i - 4];
      }
    }
  }

  /** The text `add_link` writes holds the links it held, plus one more to the other node. */
  lemma WithLinkLinks(text: string, other: string)
    requires CleanKey(other)
    ensures multiset(Links(WithLink(text, other))) == multiset(Links(text)) + multiset{other}
  {
    var lines := Split(text, '\n');
    var inserted := SectionInserted(lines, Header(SectionName(other)), LinkLine(other));
    LinksOfSplitLines(text);
    LinksOfJoinedLines(inserted);
    HeaderHasNoBracket(other);
    SectionInsertedLinks(lines, Header(SectionName(other)), LinkLine(other));
    LinkLineHoldsKey(other);
  }

  /** `self.add_link(other)` for notes `self` and `other`, with `fuel` frames left before
      the interpreter's recursion limit. */
  function AddLinkSpec(fs: FS, self: string, other: string, fuel: nat): Outcome
    decreases fuel
  {
    if fuel == 0 then Outcome(fs, Some(RecursionLimit))
    else
      var c := Contents(fs, self);
      if c.Err? then Outcome(fs, Some(c.error))
      else
        var fs1 := fs[NodePath(self) := File(WithLink(c.value, other))];
        if KeyType(other) !in NoteTypes then Outcome(fs1, None)
        else
          var back := LinksTo(fs1, other, self);
          if back.Err? then Outcome(fs1, Some(back.error))
          else if back.value then Outcome(fs1, None)
          else AddLinkSpec(fs1, other, self, fuel - 1)
  }

  /** `self.add_link(key)`: the key is looked up first. */
  function AddLinkKey(fs: FS, self: string, otherKey: string, fuel: nat): Outcome
  {
    var other := Lookup(fs, otherKey);
    if fuel == 0 then Outcome(fs, Some(RecursionLimit))
    else if other.Err? then Outcome(fs, Some(other.error)) else AddLinkSpec(fs, self, otherKey, fuel)
  }

  /** The disk after `add_link`'s write of `- [[other]]` into `self`'s file. */
  function WriteLink(fs: FS, self: string, other: string): FS
    requires Contents(fs, self).Ok?
  {
    fs[NodePath(self) := File(WithLink(Contents(fs, self).value, other))]
  }

  /** The write adds one link to `other` to the file at `self`'s path and touches
      nothing else. */
  lemma WriteLinkAdds(fs: FS, self: string, other: string)
    requires Contents(fs, self).Ok? && CleanKey(other)
    ensures var fs1 := WriteLink(fs, self, other);
      fs1.Keys == fs.Keys &&
      multiset(LinksIn(fs1, NodePath(self))) == multiset(LinksIn(fs, NodePath(self))) + multiset{other} &&
      (forall p :: p != NodePath(self) ==> p in fs1 <==> p in fs) &&
      (forall p :: p in fs && p != NodePath(self) ==> fs1[p] == fs[p])
  {
    WithLinkLinks(Contents(fs, self).value, other);
  }

  /** Every key in K is clean and exists; every note-typed one is a readable file whose
      links all lie in K. */
  predicate Sound(fs: FS, K: set<string>)
  {
    forall k :: k in K ==>
      CleanKey(k) && NodePath(k) in fs &&
      (KeyType(k) in NoteTypes ==> fs[NodePath(k)].File? && forall y :: y in LinksAt(fs, k) ==> y in K)
  }

  /** In a sound network, asking whether a note links to a key never raises. */
  lemma SoundLinksTo(fs: FS, K: set<string>, from: string, target: string)
    requires Sound(fs, K) && from in K && KeyType(from) in NoteTypes
    ensures LinksTo(fs, from, target) == Ok(target in LinksAt(fs, from))
  {
    forall y | y in LinksAt(fs, from) ensures Exists(fs, y) {
      assert y in K;
    }
  }

  /** Links only grow from `fs` to `fs1`. */
  ghost predicate Grows(fs: FS, fs1: FS)
  {
    forall p, y :: y in LinksIn(fs, p) ==> y in LinksIn(fs1, p)
  }

  /** The only link that may be new at path `p` is one to `y`, and no other path has a new link. */
  ghost predicate OnlyNew(fs: FS, fs1: FS, p: Path, y: string)
  {
    forall q, z :: z in LinksIn(fs1, q) && z !in LinksIn(fs, q) ==> q == p && z == y
  }

  /** The write adds the link to `other` at `self`'s path, keeps every link there, and
      changes no other path. */
  lemma WriteLinkGrows(fs: FS, self: string, other: string)
    requires Contents(fs, self).Ok? && CleanKey(other)
    ensures var fs1 := WriteLink(fs, self, other);
      Grows(fs, fs1) && OnlyNew(fs, fs1, NodePath(self), other) && other in LinksIn(fs1, NodePath(self))
  {
    WriteLinkAdds(fs, self, other);
    GrowsByOne(fs, WriteLink(fs, self, other), NodePath(self), other);
  }

  /** One more link at one path, nothing else changed: the links grow by that one. */
  lemma GrowsByOne(fs: FS, fs1: FS, P: Path, other: string)
    requires fs1.Keys == fs.Keys
    requires multiset(LinksIn(fs1, P)) == multiset(LinksIn(fs, P)) + multiset{other}
    requires forall p :: p in fs && p != P ==> fs1[p] == fs[p]
    ensures Grows(fs, fs1) && OnlyNew(fs, fs1, P, other) && other in LinksIn(fs1, P)
  {
    var m1, m := multiset(LinksIn(fs1, P)), multiset(LinksIn(fs, P));
    forall q, y | y in LinksIn(fs, q) ensures y in LinksIn(fs1, q) {
      if q == P {
        assert y in m;
        assert y in m1;
      }
    }
    forall q, z | z in LinksIn(fs1, q) && z !in LinksIn(fs, q) ensures q == P && z == other {
      if q == P {
        assert z in m1 && z !in m;
      }
    }
    assert other in m1;
  }

  /** A change that keeps every entry's kind and adds only links to a key of K keeps K sound. */
  lemma SoundAfterGrowth(fs: FS, fs1: FS, K: set<string>, p: Path, other: string)
    requires Sound(fs, K) && other in K
    requires fs1.Keys == fs.Keys && forall q :: q in fs ==> fs1[q].File? == fs[q].File?
    requires OnlyNew(fs, fs1, p, other)
    ensures Sound(fs1, K)
  {
    forall k | k in K
      ensures CleanKey(k) && NodePath(k) in fs1 &&
        (KeyType(k) in NoteTypes ==> fs1[NodePath(k)].File? && forall y :: y in LinksAt(fs1, k) ==> y in K)
    {
      if KeyType(k) in NoteTypes {
        forall y | y in LinksAt(fs1, k) ensures y in K {
          if y !in LinksAt(fs, k) {
            assert y == other;
          }
        }
      }
    }
  }

  /** `add_link`'s write keeps K sound, adds exactly the one link and changes no other path. */
  lemma WriteLinkSound(fs: FS, K: set<string>, self: string, other: string)
    requires Sound(fs, K) && self in K && KeyType(self) in NoteTypes && other in K
    ensures Contents(fs, self).Ok?
    ensures var fs1 := WriteLink(fs, self, other);
      Sound(fs1, K) && fs1.Keys == fs.Keys && Grows(fs, fs1) && OnlyNew(fs, fs1, NodePath(self), other) &&
      other in LinksAt(fs1, self) &&
      (forall p :: p in fs && p != NodePath(self) ==> fs1[p] == fs[p])
  {
    var fs1 := WriteLink(fs, self, other);
    WriteLinkAdds(fs, self, other);
    WriteLinkGrows(fs, self, other);
    SoundAfterGrowth(fs, fs1, K, NodePath(self), other);
  }

  lemma GrowsTransitive(fs0: FS, fs1: FS, fs2: FS)
    requires Grows(fs0, fs1) && Grows(fs1, fs2)
    ensures Grows(fs0, fs2)
  {
    forall q, y | y in LinksIn(fs0, q) ensures y in LinksIn(fs2, q) {
      assert y in LinksIn(fs1, q);
    }
  }

  /** `u.add_link(v)` between two notes of a sound network: no exception, at most one
      reciprocal call (two frames suffice), and afterwards each links to the other. The only
      new links are `u` to `v` and `v` to `u`, and no other path changes. */
  lemma AddLinkReciprocal(fs: FS, K: set<string>, u: string, v: string, fuel: nat)
    requires Sound(fs, K) && u in K && v in K && KeyType(u) in NoteTypes && KeyType(v) in NoteTypes
    requires fuel >= 2
    ensures var o := AddLinkSpec(fs, u, v, fuel);
      o.err == None && Sound(o.fs, K) && o.fs.Keys == fs.Keys && Grows(fs, o.fs) &&
      v in LinksAt(o.fs, u) && u in LinksAt(o.fs, v) &&
      (forall q, z :: z in LinksIn(o.fs, q) && z !in LinksIn(fs, q) ==>
        (q == NodePath(u) && z == v) || (q == NodePath(v) && z == u)) &&
      (forall p :: p in fs && p != NodePath(u) && p != NodePath(v) ==> o.fs[p] == fs[p])
  {
    var fs1 := WriteLink(fs, u, v);
    WriteLinkSound(fs, K, u, v);
    SoundLinksTo(fs1, K, v, u);
    if u in LinksAt(fs1, v) {
      assert AddLinkSpec(fs, u, v, fuel) == Outcome(fs1, None);
    } else {
      assert AddLinkSpec(fs, u, v, fuel) == AddLinkSpec(fs1, v, u, fuel - 1);
      var fs2 := WriteLink(fs1, v, u);
      WriteLinkSound(fs1, K, v, u);
      SoundLinksTo(fs2, K, u, v);
      assert v in LinksAt(fs2, u);
      assert AddLinkSpec(fs1, v, u, fuel - 1) == Outcome(fs2, None);
      GrowsTransitive(fs, fs1, fs2);
      forall q, z | z in LinksIn(fs2, q) && z !in LinksIn(fs, q)
        ensures (q == NodePath(u) && z == v) || (q == NodePath(v) && z == u)
      {
        if z in LinksIn(fs1, q) {
          assert q == NodePath(u) && z == v;
        } else {
          assert q == NodePath(v) && z == u;
        }
      }
    }
  }

  /** `u.add_link(v)` to an attachment writes `u`'s file, with the one added link, and nothing else. */
  lemma AddLinkToAttachment(fs: FS, u: string, v: string, fuel: nat)
    requires Contents(fs, u).Ok? && CleanKey(v) && KeyType(v) !in NoteTypes && fuel >= 1
    ensures var o := AddLinkSpec(fs, u, v, fuel);
      o.err == None && o.fs.Keys == fs.Keys &&
      multiset(LinksAt(o.fs, u)) == multiset(LinksAt(fs, u)) + multiset{v} &&
      (forall p :: p in fs && p != NodePath(u) ==> o.fs[p] == fs[p])
  {
    WriteLinkAdds(fs, u, v);
  }

  /** The inner loop of `fix_bidirectional_links` for the note `u`, over the links `ks` it
      read: each note-typed neighbour that does not link back gets `add_link(u)`. */
  function FixNeighbors(fs: FS, u: string, ks: seq<string>, fuel: nat): Outcome
    decreases |ks|
  {
    if ks == [] then Outcome(fs, None)
    else
      var v := Lookup(fs, ks[0]);
      if v.Err? then Outcome(fs, Some(v.error))
      else if !v.value.isNote then FixNeighbors(fs, u, ks[1..], fuel)
      else
        var back := LinksTo(fs, ks[0], u);
        if back.Err? then Outcome(fs, Some(back.error))
        else if back.value then FixNeighbors(fs, u, ks[1..], fuel)
        else
          var o := AddLinkSpec(fs, ks[0], u, fuel);
          if o.err.Some? then o else FixNeighbors(o.fs, u, ks[1..], fuel)
  }

  /** `fix_bidirectional_links` over the notes in listing order. */
  function FixAll(fs: FS, notes: seq<string>, fuel: nat): Outcome
    decreases |notes|
  {
    if notes == [] then Outcome(fs, None)
    else
      var c := Contents(fs, notes[0]);
      if c.Err? then Outcome(fs, Some(c.error))
      else
        var o := FixNeighbors(fs, notes[0], Links(c.value), fuel);
        if o.err.Some? then o else FixAll(o.fs, notes[1..], fuel)
  }

  /** No two keys of K name the same path. */
  predicate Canonical(K: set<string>)
  {
    forall a, b :: a in K && b in K && NodePath(a) == NodePath(b) ==> a == b
  }

  /** Every note-typed key `x` links to also links back to `x`. */
  ghost predicate Recip(fs: FS, x: string)
  {
    forall y :: y in LinksAt(fs, x) && KeyType(y) in NoteTypes ==> x in LinksAt(fs, y)
  }

  /** Every link that is new in `fs1`, from a key of K, is answered by a link back. */
  ghost predicate NewRecip(fs: FS, fs1: FS, K: set<string>)
  {
    forall k, y :: k in K && y in LinksAt(fs1, k) && y !in LinksAt(fs, k) ==> k in LinksAt(fs1, y)
  }

  lemma NewRecipTransitive(fs0: FS, fs1: FS, fs2: FS, K: set<string>)
    requires NewRecip(fs0, fs1, K) && NewRecip(fs1, fs2, K) && Grows(fs1, fs2)
    ensures NewRecip(fs0, fs2, K)
  {
    forall k, y | k in K && y in LinksAt(fs2, k) && y !in LinksAt(fs0, k) ensures k in LinksAt(fs2, y) {
      if y in LinksAt(fs1, k) {
        assert k in LinksAt(fs1, y);
      }
    }
  }

  lemma RecipPreserved(fs: FS, fs1: FS, K: set<string>, x: string)
    requires x in K && Recip(fs, x) && Grows(fs, fs1) && NewRecip(fs, fs1, K)
    ensures Recip(fs1, x)
  {
    forall y | y in LinksAt(fs1, x) && KeyType(y) in NoteTypes ensures x in LinksAt(fs1, y) {
      if y in LinksAt(fs, x) {
        assert x in LinksAt(fs, y);
      }
    }
  }

  /** In a canonical sound network, `v.add_link(u)` only adds links that are answered. */
  lemma AddLinkNewRecip(fs: FS, K: set<string>, v: string, u: string, fuel: nat)
    requires Sound(fs, K) && Canonical(K) && u in K && v in K && KeyType(u) in NoteTypes && KeyType(v) in NoteTypes
    requires fuel >= 2
    ensures var o := AddLinkSpec(fs, v, u, fuel);
      o.err == None && Sound(o.fs, K) && o.fs.Keys == fs.Keys && Grows(fs, o.fs) && NewRecip(fs, o.fs, K) &&
      u in LinksAt(o.fs, v)
  {
    var o := AddLinkSpec(fs, v, u, fuel);
    AddLinkReciprocal(fs, K, v, u, fuel);
    forall k, y | k in K && y in LinksAt(o.fs, k) && y !in LinksAt(fs, k) ensures k in LinksAt(o.fs, y) {
      if NodePath(k) == NodePath(v) && y == u {
        assert k == v;
      } else {
        assert NodePath(k) == NodePath(u) && y == v;
        assert k == u;
      }
    }
  }

  /** For note `u` of a canonical sound network, the inner loop over links `u` holds
      raises nothing and leaves every note-typed one linking back to `u`. */
  lemma {:induction false} FixNeighborsReciprocates(fs: FS, K: set<string>, u: string, ks: seq<string>, fuel: nat)
    requires Sound(fs, K) && Canonical(K) && u in K && KeyType(u) in NoteTypes && fuel >= 2
    requires forall i :: 0 <= i < |ks| ==> ks[i] in LinksAt(fs, u)
    ensures var o := FixNeighbors(fs, u, ks, fuel);
      o.err == None && Sound(o.fs, K) && o.fs.Keys == fs.Keys && Grows(fs, o.fs) && NewRecip(fs, o.fs, K) &&
      forall i :: 0 <= i < |ks| && KeyType(ks[i]) in NoteTypes ==> u in LinksAt(o.fs, ks[i])
    decreases |ks|
  {
    if ks != [] {
      var v := ks[0];
      assert v in K;
      assert Lookup(fs, v) == Ok(NodeRef(v, KeyType(v) in NoteTypes));
      var fs1 := fs;
      if KeyType(v) in NoteTypes {
        SoundLinksTo(fs, K, v, u);
        if u !in LinksAt(fs, v) {
          AddLinkNewRecip(fs, K, v, u, fuel);
          fs1 := AddLinkSpec(fs, v, u, fuel).fs;
        }
      }
      assert FixNeighbors(fs, u, ks, fuel) == FixNeighbors(fs1, u, ks[1..], fuel);
      assert Grows(fs, fs1) && NewRecip(fs, fs1, K);
      assert forall i :: 1 <= i < |ks| ==> ks[i] in LinksAt(fs1, u);
      FixNeighborsReciprocates(fs1, K, u, ks[1..], fuel);
      var o := FixNeighbors(fs1, u, ks[1..], fuel);
      GrowsTransitive(fs, fs1, o.fs);
      NewRecipTransitive(fs, fs1, o.fs, K);
      forall i | 0 <= i < |ks| && KeyType(ks[i]) in NoteTypes ensures u in LinksAt(o.fs, ks[i]) {
        if i == 0 {
          assert u in LinksAt(fs1, v);
        } else {
          assert ks[i] == ks[1..][i - 1];
        }
      }
    }
  }

  /** Once every note-typed link `u` held links back, and every new link is answered, `u`
      is reciprocated. */
  lemma RecipFromNeighbors(fs: FS, fs1: FS, K: set<string>, u: string, ks: seq<string>)
    requires u in K && NewRecip(fs, fs1, K) && ks == LinksAt(fs, u)
    requires forall i :: 0 <= i < |ks| && KeyType(ks[i]) in NoteTypes ==> u in LinksAt(fs1, ks[i])
    ensures Recip(fs1, u)
  {
    forall y | y in LinksAt(fs1, u) && KeyType(y) in NoteTypes ensures u in LinksAt(fs1, y) {
      if y in ks {
        var i :| 0 <= i < |ks| && ks[i] == y;
      }
    }
  }

  /** `fix_bidirectional_links` on a canonical sound network raises nothing and leaves every
      listed note reciprocated: each note-typed key it links to links back to it. */
  lemma {:induction false} FixReciprocates(fs: FS, K: set<string>, notes: seq<string>, fuel: nat)
    requires Sound(fs, K) && Canonical(K) && fuel >= 2
    requires forall i :: 0 <= i < |notes| ==> notes[i] in K && KeyType(notes[i]) in NoteTypes
    ensures var o := FixAll(fs, notes, fuel);
      o.err == None && Sound(o.fs, K) && o.fs.Keys == fs.Keys && Grows(fs, o.fs) && NewRecip(fs, o.fs, K) &&
      forall x :: x in notes ==> Recip(o.fs, x)
    decreases |notes|
  {
    if notes != [] {
      var u := notes[0];
      var ks := LinksAt(fs, u);
      assert Contents(fs, u) == Ok(fs[NodePath(u)].text);
      FixNeighborsReciprocates(fs, K, u, ks, fuel);
      var fs1 := FixNeighbors(fs, u, ks, fuel).fs;
      RecipFromNeighbors(fs, fs1, K, u, ks);
      assert FixAll(fs, notes, fuel) == FixAll(fs1, notes[1..], fuel);
      FixReciprocates(fs1, K, notes[1..], fuel);
      var o := FixAll(fs1, notes[1..], fuel);
      GrowsTransitive(fs, fs1, o.fs);
      NewRecipTransitive(fs, fs1, o.fs, K);
      RecipPreserved(fs1, o.fs, K, u);
      assert forall x :: x in notes ==> x == u || x in notes[1..];
    }
  }

  /** When every note `u` links to links back, visiting `u`'s links writes nothing. */
  lemma {:induction false} FixNeighborsNothingToDo(fs: FS, K: set<string>, u: string, ks: seq<string>, fuel: nat)
    requires Sound(fs, K) && u in K && KeyType(u) in NoteTypes && Recip(fs, u)
    requires forall i :: 0 <= i < |ks| ==> ks[i] in LinksAt(fs, u)
    ensures FixNeighbors(fs, u, ks, fuel) == Outcome(fs, None)
    decreases |ks|
  {
    if ks != [] {
      var v := ks[0];
      assert v in K && Exists(fs, v);
      if KeyType(v) in NoteTypes {
        SoundLinksTo(fs, K, v, u);
        assert u in LinksAt(fs, v);
      }
      assert FixNeighbors(fs, u, ks, fuel) == FixNeighbors(fs, u, ks[1..], fuel);
      FixNeighborsNothingToDo(fs, K, u, ks[1..], fuel);
    }
  }

  /** On a sound network whose listed notes all have their links answered, the fix
      writes nothing and raises nothing. */
  lemma {:induction false} FixAllNothingToDo(fs: FS, K: set<string>, notes: seq<string>, fuel: nat)
    requires Sound(fs, K)
    requires forall i :: 0 <= i < |notes| ==> notes[i] in K && KeyType(notes[i]) in NoteTypes
    requires forall i :: 0 <= i < |notes| ==> Recip(fs, notes[i])
    ensures FixAll(fs, notes, fuel) == Outcome(fs, None)
    decreases |notes|
  {
    if notes != [] {
      var u := notes[0];
      assert Contents(fs, u) == Ok(fs[NodePath(u)].text);
      FixNeighborsNothingToDo(fs, K, u, LinksAt(fs, u), fuel);
      assert FixAll(fs, notes, fuel) == FixAll(fs, notes[1..], fuel);
      FixAllNothingToDo(fs, K, notes[1..], fuel);
    }
  }

  /** Fixing twice is fixing once: the second pass finds every link answered. */
  lemma FixIdempotent(fs: FS, K: set<string>, notes: seq<string>, fuel: nat)
    requires Sound(fs, K) && Canonical(K) && fuel >= 2
    requires forall i :: 0 <= i < |notes| ==> notes[i] in K && KeyType(notes[i]) in NoteTypes
    ensures var o := FixAll(fs, notes, fuel); FixAll(o.fs, notes, fuel) == Outcome(o.fs, None)
  {
    FixReciprocates(fs, K, notes, fuel);
    var o := FixAll(fs, notes, fuel);
    assert forall i :: 0 <= i < |notes| ==> notes[i] in notes;
    FixAllNothingToDo(o.fs, K, notes, fuel);
  }

  /** `_update_link(old, new)` on the note `key`. */
  function UpdateLinkSpec(fs: FS, key: string, oldKey: string, newKey: string): Outcome
  {
    var c := Contents(fs, key);
    if c.Err? then Outcome(fs, Some(c.error))
    else Outcome(fs[NodePath(key) := File(Renamed(c.value, oldKey, newKey))], None)
  }

  /** `for predecessor in self.predecessors: predecessor._update_link(old, new)`: the notes
      in listing order; each one that links to the old key when its turn comes is rewritten. */
  function RenameInPredecessors(fs: FS, notes: seq<string>, oldKey: string, newKey: string): Outcome
    decreases |notes|
  {
    if notes == [] then Outcome(fs, None)
    else
      var t := LinksTo(fs, notes[0], oldKey);
      if t.Err? then Outcome(fs, Some(t.error))
      else if !t.value then RenameInPredecessors(fs, notes[1..], oldKey, newKey)
      else
        var o := UpdateLinkSpec(fs, notes[0], oldKey, newKey);
        if o.err.Some? then o else RenameInPredecessors(o.fs, notes[1..], oldKey, newKey)
  }

  /** Renaming keys in a list without the old key changes nothing. */
  lemma {:induction false} RenameKeysAbsent(ks: seq<string>, oldKey: string, newKey: string)
    requires oldKey !in ks
    ensures RenameKeys(ks, oldKey, newKey) == ks
  {
  }

  /** Each path `docs` covers is a file whose text is the rendering of a well-formed piece
      sequence; other files (attachments, notes not involved) may hold anything. */
  ghost predicate Parsed(fs: FS, docs: map<Path, seq<Piece>>)
  {
    forall p :: p in docs ==> p in fs && fs[p].File? && WellFormed(docs[p]) && Render(docs[p]) == fs[p].text
  }

  /** The paths of the listed notes. */
  function PathsOf(notes: seq<string>): set<Path>
  {
    set i | 0 <= i < |notes| :: NodePath(notes[i])
  }

  /** No two listed notes share a path. */
  predicate DistinctPaths(notes: seq<string>)
  {
    forall i, j :: 0 <= i < j < |notes| ==> NodePath(notes[i]) != NodePath(notes[j])
  }

  /** Every listed note is readable and all its links resolve. */
  predicate Resolvable(fs: FS, notes: seq<string>)
  {
    forall i :: 0 <= i < |notes| ==>
      Contents(fs, notes[i]).Ok? && forall y :: y in LinksAt(fs, notes[i]) ==> Exists(fs, y)
  }

  /** One `_update_link` on a parsed file renames exactly the links to the old key there
      and keeps the disk parsed. */
  lemma UpdateLinkStep(fs: FS, docs: map<Path, seq<Piece>>, n: string, oldKey: string, newKey: string)
    requires Parsed(fs, docs) && NodePath(n) in docs && CleanKey(oldKey) && CleanKey(newKey)
    ensures var o := UpdateLinkSpec(fs, n, oldKey, newKey);
      var P := NodePath(n);
      o.err == None && o.fs.Keys == fs.Keys &&
      Parsed(o.fs, docs[P := RenamePieces(docs[P], oldKey, newKey)]) &&
      LinksAt(o.fs, n) == RenameKeys(LinksAt(fs, n), oldKey, newKey) &&
      (forall p :: p in fs && p != P ==> o.fs[p] == fs[p])
  {
    UpdateLinkParsed(fs, docs, n, oldKey, newKey);
    UpdateLinkLinks(fs, docs, n, oldKey, newKey);
  }

  lemma UpdateLinkParsed(fs: FS, docs: map<Path, seq<Piece>>, n: string, oldKey: string, newKey: string)
    requires Parsed(fs, docs) && NodePath(n) in docs && CleanKey(oldKey) && CleanKey(newKey)
    ensures var P := NodePath(n);
      Parsed(UpdateLinkSpec(fs, n, oldKey, newKey).fs, docs[P := RenamePieces(docs[P], oldKey, newKey)])
  {
    RenameFileParsed(fs, docs, NodePath(n), oldKey, newKey);
  }

  /** Renaming the links of one parsed file keeps the disk parsed. */
  lemma RenameFileParsed(fs: FS, docs: map<Path, seq<Piece>>, P: Path, oldKey: string, newKey: string)
    requires Parsed(fs, docs) && P in docs && CleanKey(oldKey) && CleanKey(newKey)
    ensures Parsed(fs[P := File(Renamed(fs[P].text, oldKey, newKey))], docs[P := RenamePieces(docs[P], oldKey, newKey)])
  {
    var fs' := fs[P := File(Renamed(fs[P].text, oldKey, newKey))];
    var docs' := docs[P := RenamePieces(docs[P], oldKey, newKey)];
    RenamePiecesWellFormed(docs[P], oldKey, newKey);
    RenamedRender(docs[P], oldKey, newKey);
    forall p | p in docs'
      ensures p in fs' && fs'[p].File? && WellFormed(docs'[p]) && Render(docs'[p]) == fs'[p].text
    {
      if p != P {
        assert fs'[p] == fs[p] && docs'[p] == docs[p];
      }
    }
  }

  lemma UpdateLinkLinks(fs: FS, docs: map<Path, seq<Piece>>, n: string, oldKey: string, newKey: string)
    requires Parsed(fs, docs) && NodePath(n) in docs && CleanKey(oldKey) && CleanKey(newKey)
    ensures LinksAt(UpdateLinkSpec(fs, n, oldKey, newKey).fs, n) == RenameKeys(LinksAt(fs, n), oldKey, newKey)
  {
    var P := NodePath(n);
    var text := fs[P].text;
    assert text == Render(docs[P]);
    UpdateLinkRenamesLinks(docs[P], oldKey, newKey);
  }

  /** The loop over `predecessors` in `rekey`: over notes with distinct paths whose links
      all resolve, it raises nothing, renames every link to the old key in every listed
      note, keeps all other links in order, and writes no other file. */
  lemma {:induction false} RenameInPredecessorsRenames(fs: FS, docs: map<Path, seq<Piece>>, notes: seq<string>,
      oldKey: string, newKey: string)
    requires Parsed(fs, docs) && PathsOf(notes) <= docs.Keys && DistinctPaths(notes) && Resolvable(fs, notes)
    requires CleanKey(oldKey) && CleanKey(newKey)
    ensures var o := RenameInPredecessors(fs, notes, oldKey, newKey);
      o.err == None && o.fs.Keys == fs.Keys &&
      (forall i :: 0 <= i < |notes| ==> LinksAt(o.fs, notes[i]) == RenameKeys(LinksAt(fs, notes[i]), oldKey, newKey)) &&
      (forall p :: p in fs && p !in PathsOf(notes) ==> o.fs[p] == fs[p])
    decreases |notes|
  {
    if notes != [] {
      var n, rest := notes[0], notes[1..];
      var P := NodePath(n);
      assert LinksTo(fs, n, oldKey) == Ok(oldKey in LinksAt(fs, n));
      var fs1, docs1 := fs, docs;
      if oldKey in LinksAt(fs, n) {
        UpdateLinkStep(fs, docs, n, oldKey, newKey);
        fs1 := UpdateLinkSpec(fs, n, oldKey, newKey).fs;
        docs1 := docs[P := RenamePieces(docs[P], oldKey, newKey)];
      } else {
        RenameKeysAbsent(LinksAt(fs, n), oldKey, newKey);
      }
      assert RenameInPredecessors(fs, notes, oldKey, newKey) == RenameInPredecessors(fs1, rest, oldKey, newKey);
      assert LinksAt(fs1, n) == RenameKeys(LinksAt(fs, n), oldKey, newKey);
      assert forall p :: p in fs && p != P ==> fs1[p] == fs[p];
      PathsOfTail(notes);
      RestUnchanged(fs, fs1, notes);
      RenameInPredecessorsRenames(fs1, docs1, rest, oldKey, newKey);
      var o := RenameInPredecessors(fs1, rest, oldKey, newKey);
      assert LinksAt(o.fs, n) == LinksAt(fs1, n) by {
        assert P in fs1 && o.fs[P] == fs1[P];
      }
      forall i | 0 <= i < |notes|
        ensures LinksAt(o.fs, notes[i]) == RenameKeys(LinksAt(fs, notes[i]), oldKey, newKey)
      {
        if i > 0 {
          assert notes[i] == rest[i - 1];
        }
      }
    }
  }

  /** The first note's path is not among the others', which are among all the notes'. */
  lemma PathsOfTail(notes: seq<string>)
    requires notes != [] && DistinctPaths(notes)
    ensures NodePath(notes[0]) !in PathsOf(notes[1..]) && PathsOf(notes[1..]) <= PathsOf(notes)
  {
    FirstPathNotInTail(notes);
    TailPathsIncluded(notes);
  }

  lemma FirstPathNotInTail(notes: seq<string>)
    requires notes != [] && DistinctPaths(notes)
    ensures NodePath(notes[0]) !in PathsOf(notes[1..])
  {
    var rest := notes[1..];
    forall i | 0 <= i < |rest| ensures NodePath(rest[i]) != NodePath(notes[0]) {
      assert rest[i] == notes[i + 1];
    }
  }

  lemma TailPathsIncluded(notes: seq<string>)
    requires notes != []
    ensures PathsOf(notes[1..]) <= PathsOf(notes)
  {
    var rest := notes[1..];
    forall q | q in PathsOf(rest) ensures q in PathsOf(notes) {
      var i :| 0 <= i < |rest| && NodePath(rest[i]) == q;
      assert NodePath(notes[i + 1]) == q;
    }
  }

  /** Notes after the first keep their text, and so stay resolvable and distinct, when only
      the first note's file changes. */
  lemma RestUnchanged(fs: FS, fs1: FS, notes: seq<string>)
    requires notes != [] && DistinctPaths(notes) && Resolvable(fs, notes)
    requires fs1.Keys == fs.Keys && forall p :: p in fs && p != NodePath(notes[0]) ==> fs1[p] == fs[p]
    ensures DistinctPaths(notes[1..]) && Resolvable(fs1, notes[1..])
    ensures forall i :: 1 <= i < |notes| ==> LinksAt(fs1, notes[i]) == LinksAt(fs, notes[i])
  {
    var rest := notes[1..];
    forall i | 0 <= i < |rest| ensures Contents(fs1, rest[i]) == Contents(fs, rest[i]) {
      assert NodePath(rest[i]) != NodePath(notes[0]) by {
        assert rest[i] == notes[i + 1];
      }
    }
    ResolvableFrame(fs, fs1, rest);
    forall i | 1 <= i < |notes| ensures LinksAt(fs1, notes[i]) == LinksAt(fs, notes[i]) {
      assert notes[i] == rest[i - 1];
    }
  }

  lemma ResolvableFrame(fs: FS, fs1: FS, notes: seq<string>)
    requires Resolvable(fs, notes) && fs1.Keys == fs.Keys
    requires forall i :: 0 <= i < |notes| ==> Contents(fs1, notes[i]) == Contents(fs, notes[i])
    ensures Resolvable(fs1, notes)
    ensures forall i :: 0 <= i < |notes| ==> LinksAt(fs1, notes[i]) == LinksAt(fs, notes[i])
  {
    forall i | 0 <= i < |notes| ensures LinksAt(fs1, notes[i]) == LinksAt(fs, notes[i]) {
      assert Contents(fs1, notes[i]) == Contents(fs, notes[i]);
    }
  }

  /** pathlib's `parent`, relative to the root. */
  function Parent(p: Path): Path
  {
    if p == [] then [] else p[..|p| - 1]
  }

  /** `d.mkdir(parents=True, exist_ok=True)`: `d` and each of its missing ancestors become
      directories; nothing that exists changes. */
  function MakeDirs(fs: FS, d: Path): (r: FS)
    ensures forall q :: q in fs ==> q in r && r[q] == fs[q]
    ensures forall i :: 1 <= i <= |d| ==> d[..i] in r
    ensures forall q :: q in r && q !in fs ==> r[q] == Dir && q != [] && IsPrefix(q, d)
    decreases |d|
  {
    if d == [] then fs
    else
      var r := MakeDirs(fs, d[..|d| - 1]);
      assert forall i :: 1 <= i < |d| ==> d[..|d| - 1][..i] == d[..i];
      assert d[..|d|] == d;
      if d in r then r else r[d := Dir]
  }

  /** `_ensure_directory_exists(path)`: nothing if the path is a directory, else its parent
      and the parent's missing ancestors are made. */
  function EnsureDirectory(fs: FS, p: Path): FS
  {
    if p in fs && fs[p].Dir? then fs else MakeDirs(fs, Parent(p))
  }

  /** `source.rename(target)`: the entry moves to the target, replacing what was there; a
      missing source raises. */
  function Move(fs: FS, from: Path, to: Path, key: string): (r: Result<FS>)
    ensures r.Err? <==> from !in fs
    ensures r.Ok? ==> to in r.value && r.value[to] == fs[from] && r.value.Keys == fs.Keys - {from} + {to}
    ensures r.Ok? ==> forall q :: q in fs && q != from && q != to ==> r.value[q] == fs[q]
  {
    if from !in fs then Err(RenameFailed(key)) else Ok((fs - {from})[to := fs[from]])
  }

  /** What `rekey` leaves: the disk, the node's key, and the exception raised, if any. */
  datatype Rekeyed = Rekeyed(fs: FS, key: string, err: Option<Error>)

  /** `path.suffix` of a path relative to the root. */
  function PathSuffix(p: Path): string
  {
    if p == [] then "" else Suffix(p[|p| - 1])
  }

  /** `Node.rekey`'s target: `(root / kind / name).with_suffix(old suffix)`. */
  function NodeTarget(kp: KeyParts, sfx: string): Path
  {
    WithSuffix(PathOf(kp.kind + "/" + kp.name), sfx)
  }

  /** `NoteNode.rekey`'s target: `(dir / name).with_suffix('.md')`, where `dir` is the root for
      a topic and `root / kind` otherwise. */
  function NoteTarget(kp: KeyParts): Path
  {
    WithSuffix(PathOf(if kp.kind == "topic" then kp.name else kp.kind + "/" + kp.name), ".md")
  }

  /** `Node.rekey(newKey)` on the node `key`, over the notes in listing order. */
  function NodeRekeySpec(fs: FS, notes: seq<string>, key: string, newKey: string): Rekeyed
  {
    var kp := GetKeyParts(newKey);
    if kp.Err? then Rekeyed(fs, key, Some(kp.error))
    else if kp.value.kind != KeyType(key) then Rekeyed(fs, key, Some(TypeChange))
    else
      var o := RenameInPredecessors(fs, notes, key, newKey);
      if o.err.Some? then Rekeyed(o.fs, key, o.err)
      else
        var target := NodeTarget(kp.value, PathSuffix(NodePath(key)));
        if target == [] then Rekeyed(o.fs, key, Some(NotUnderRoot))
        else
          var fs1 := EnsureDirectory(o.fs, target);
          var m := Move(fs1, NodePath(key), target, key);
          if m.Err? then Rekeyed(fs1, key, Some(m.error)) else Rekeyed(m.value, newKey, None)
  }

  /** `NoteNode.rekey(newKey)` on the note `key`, over the notes in listing order. */
  function NoteRekeySpec(fs: FS, notes: seq<string>, key: string, newKey: string): Rekeyed
  {
    var kp := GetKeyParts(newKey);
    if kp.Err? then Rekeyed(fs, key, Some(kp.error))
    else if kp.value.kind !in NoteTypes then Rekeyed(fs, key, Some(NoteToNonNote))
    else
      var o := RenameInPredecessors(fs, notes, key, newKey);
      if o.err.Some? then Rekeyed(o.fs, key, o.err)
      else
        var target := NoteTarget(kp.value);
        if target == [] then Rekeyed(o.fs, key, Some(NotUnderRoot))
        else
          var m := Move(o.fs, NodePath(key), target, key);
          if m.Err? then Rekeyed(o.fs, key, Some(m.error)) else Rekeyed(m.value, newKey, None)
  }

  /** Both `rekey`s raise before writing anything: on a new key with two or more ':', on a
      change of type (`Node`), or on a non-note type (`NoteNode`). */
  lemma RekeyRejectsBeforeWriting(fs: FS, notes: seq<string>, key: string, newKey: string)
    ensures multiset(newKey)[':'] >= 2 ==>
      NodeRekeySpec(fs, notes, key, newKey) == Rekeyed(fs, key, Some(MalformedKey(newKey))) &&
      NoteRekeySpec(fs, notes, key, newKey) == Rekeyed(fs, key, Some(MalformedKey(newKey)))
    ensures multiset(newKey)[':'] < 2 && KeyType(newKey) != KeyType(key) ==>
      NodeRekeySpec(fs, notes, key, newKey) == Rekeyed(fs, key, Some(TypeChange))
    ensures multiset(newKey)[':'] < 2 && KeyType(newKey) !in NoteTypes ==>
      NoteRekeySpec(fs, notes, key, newKey) == Rekeyed(fs, key, Some(NoteToNonNote))
  {
  }

  /** A successful `NoteNode.rekey` over notes whose links resolve: every listed note other
      than the moved file and its target has each link to the old key renamed, the file now
      lies at the target with its own links renamed too if it was listed, the old key is no
      longer in the network unless the target is its own path, and the key is the new one. */
  lemma NoteRekeyMoves(fs: FS, docs: map<Path, seq<Piece>>, notes: seq<string>, key: string, newKey: string)
    requires Parsed(fs, docs) && PathsOf(notes) <= docs.Keys && DistinctPaths(notes) && Resolvable(fs, notes)
    requires CleanKey(key) && CleanKey(newKey) && NodePath(key) in fs
    requires multiset(newKey)[':'] < 2 && KeyType(newKey) in NoteTypes
    requires NoteTarget(GetKeyParts(newKey).value) != []
    ensures var r := NoteRekeySpec(fs, notes, key, newKey);
      var target := NoteTarget(GetKeyParts(newKey).value);
      r.err == None && r.key == newKey && target in r.fs &&
      var o := RenameInPredecessors(fs, notes, key, newKey);
      NodePath(key) in o.fs && r.fs[target] == o.fs[NodePath(key)] &&
      (target != NodePath(key) ==> !Exists(r.fs, key)) &&
      (NodePath(key) in PathsOf(notes) ==> LinksIn(r.fs, target) == RenameKeys(LinksAt(fs, key), key, newKey)) &&
      (forall i :: 0 <= i < |notes| && NodePath(notes[i]) != NodePath(key) && NodePath(notes[i]) != target ==>
        LinksAt(r.fs, notes[i]) == RenameKeys(LinksAt(fs, notes[i]), key, newKey))
  {
    var o := RenameInPredecessors(fs, notes, key, newKey);
    RenameInPredecessorsRenames(fs, docs, notes, key, newKey);
    var target := NoteTarget(GetKeyParts(newKey).value);
    var m := Move(o.fs, NodePath(key), target, key);
    assert NoteRekeySpec(fs, notes, key, newKey) == Rekeyed(m.value, newKey, None);
    MovedLinks(fs, o.fs, notes, key, newKey, target);
  }

  /** Moving the re-keyed file after the renaming loop: the other listed notes keep their
      renamed links, and the file carries its own to the target. */
  lemma MovedLinks(fs: FS, fs1: FS, notes: seq<string>, key: string, newKey: string, target: Path)
    requires NodePath(key) in fs1
    requires forall i :: 0 <= i < |notes| ==> LinksAt(fs1, notes[i]) == RenameKeys(LinksAt(fs, notes[i]), key, newKey)
    ensures var m := Move(fs1, NodePath(key), target, key).value;
      (NodePath(key) in PathsOf(notes) ==> LinksIn(m, target) == RenameKeys(LinksAt(fs, key), key, newKey)) &&
      (forall i :: 0 <= i < |notes| && NodePath(notes[i]) != NodePath(key) && NodePath(notes[i]) != target ==>
        LinksAt(m, notes[i]) == RenameKeys(LinksAt(fs, notes[i]), key, newKey))
  {
    var from := NodePath(key);
    var m := Move(fs1, from, target, key).value;
    assert LinksIn(m, target) == LinksIn(fs1, from);
    if from in PathsOf(notes) {
      var i :| 0 <= i < |notes| && NodePath(notes[i]) == from;
      assert LinksAt(fs1, notes[i]) == RenameKeys(LinksAt(fs, notes[i]), key, newKey);
    }
    forall i | 0 <= i < |notes| && NodePath(notes[i]) != from && NodePath(notes[i]) != target
      ensures LinksAt(m, notes[i]) == RenameKeys(LinksAt(fs, notes[i]), key, newKey)
    {
      MoveLeaves(fs1, from, target, key, NodePath(notes[i]));
    }
  }

  /** Moving one entry leaves the links of every other path as they were. */
  lemma MoveLeaves(fs: FS, from: Path, to: Path, key: string, q: Path)
    requires from in fs && q != from && q != to
    ensures LinksIn(Move(fs, from, to, key).value, q) == LinksIn(fs, q)
  {
  }

  /** A successful `Node.rekey` to a key of the same type over notes whose links resolve:
      as for a note, and when the target is new, each of its ancestors other than the moved
      node's old path is there afterwards. */
  lemma NodeRekeyMoves(fs: FS, docs: map<Path, seq<Piece>>, notes: seq<string>, key: string, newKey: string)
    requires Parsed(fs, docs) && PathsOf(notes) <= docs.Keys && DistinctPaths(notes) && Resolvable(fs, notes)
    requires CleanKey(key) && CleanKey(newKey) && NodePath(key) in fs
    requires multiset(newKey)[':'] < 2 && KeyType(newKey) == KeyType(key)
    requires NodeTarget(GetKeyParts(newKey).value, PathSuffix(NodePath(key))) != []
    ensures var r := NodeRekeySpec(fs, notes, key, newKey);
      var from := NodePath(key);
      var target := NodeTarget(GetKeyParts(newKey).value, PathSuffix(from));
      r.err == None && r.key == newKey && target in r.fs &&
      var o := RenameInPredecessors(fs, notes, key, newKey);
      from in o.fs && r.fs[target] == o.fs[from] &&
      (target != from ==> !Exists(r.fs, key)) &&
      (target !in fs ==> forall i :: 1 <= i < |target| && target[..i] != from ==> target[..i] in r.fs) &&
      (from in PathsOf(notes) ==> LinksIn(r.fs, target) == RenameKeys(LinksAt(fs, key), key, newKey)) &&
      (forall i :: 0 <= i < |notes| && NodePath(notes[i]) != from && NodePath(notes[i]) != target ==>
        LinksAt(r.fs, notes[i]) == RenameKeys(LinksAt(fs, notes[i]), key, newKey))
  {
    var from := NodePath(key);
    var o := RenameInPredecessors(fs, notes, key, newKey);
    RenameInPredecessorsRenames(fs, docs, notes, key, newKey);
    var target := NodeTarget(GetKeyParts(newKey).value, PathSuffix(from));
    var fs1 := EnsureDirectory(o.fs, target);
    MoveAfterDirs(o.fs, from, target, key);
    forall i | 0 <= i < |notes|
      ensures LinksAt(fs1, notes[i]) == RenameKeys(LinksAt(fs, notes[i]), key, newKey)
    {
      EnsureDirectoryLeaves(o.fs, target, NodePath(notes[i]));
    }
    var m := Move(fs1, from, target, key);
    assert NodeRekeySpec(fs, notes, key, newKey) == Rekeyed(m.value, newKey, None);
    MovedLinks(fs, fs1, notes, key, newKey, target);
  }

  /** Making the target's directories, then moving the file there: the file lands at the
      target, leaves its old path unless that is the target, and the target's ancestors
      other than the old path stand when the target was new. */
  lemma MoveAfterDirs(fs: FS, from: Path, target: Path, key: string)
    requires from in fs
    ensures var fs1 := EnsureDirectory(fs, target);
      from in fs1 && fs1[from] == fs[from] &&
      var m := Move(fs1, from, target, key);
      m.Ok? && target in m.value && m.value[target] == fs[from] &&
      (target != from ==> from !in m.value) &&
      (target !in fs ==> forall i :: 1 <= i < |target| && target[..i] != from ==> target[..i] in m.value)
  {
    if target !in fs {
      EnsureDirectoryAncestors(fs, target);
    }
  }

  /** Where no directory stands at the path, its ancestors are all there afterwards. */
  lemma EnsureDirectoryAncestors(fs: FS, p: Path)
    requires p !in fs
    ensures forall i :: 1 <= i < |p| ==> p[..i] in EnsureDirectory(fs, p)
  {
    forall i | 1 <= i < |p| ensures p[..i] in EnsureDirectory(fs, p) {
      assert Parent(p)[..i] == p[..i];
    }
  }

  /** Making directories leaves the links of every path as they were. */
  lemma EnsureDirectoryLeaves(fs: FS, p: Path, q: Path)
    ensures LinksIn(EnsureDirectory(fs, p), q) == LinksIn(fs, q)
  {
  }

  /** The target of a note re-keyed to a plain path of one or two components is the
      path of the key those components spell. */
  lemma {:induction false} NoteTargetOfPlain(p: Path, kp: KeyParts)
    requires p != [] && PlainPath(p) && Suffix(p[|p| - 1]) == ""
    requires (|p| == 1 && kp == KeyParts("topic", p[0])) ||
      (|p| == 2 && p[0] in NoteTypes && p[0] != "topic" && kp == KeyParts(p[0], p[1]))
    ensures NoteTarget(kp) == NodePath(Join(p, ':'))
  {
    if |p| == 2 {
      JoinPair(kp.kind, kp.name, '/');
      assert p == [kp.kind, kp.name];
    }
    PathOfJoin(p);
    NodePathOfPlainNote(p);
    WithSuffixOfPlainName(p, ".md");
  }

  /** A note re-keyed to a plain name without suffix is found under its new key: the
      target is exactly the new key's path. */
  lemma NoteTargetIsNodePath(newKey: string)
    requires multiset(newKey)[':'] < 2 && KeyType(newKey) in NoteTypes
    requires var kp := GetKeyParts(newKey).value;
      ValidComponent(kp.name) && Suffix(kp.name) == "" && (kp.kind != "topic" || ':' !in newKey)
    ensures NoteTarget(GetKeyParts(newKey).value) == NodePath(newKey)
  {
    var kp := GetKeyParts(newKey).value;
    if ':' in newKey {
      NoteTypePlain(kp.kind);
      JoinPair(kp.kind, kp.name, ':');
      PlainPair(kp.kind, kp.name);
      NoteTargetOfPlain([kp.kind, kp.name], kp);
    } else {
      NoteTargetOfPlain([kp.name], kp);
    }
  }
}
