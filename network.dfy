/** The objects of the note network: the `Network`, whose state is the disk under its root,
    and the nodes, whose key `rekey` changes. Each method does what the function of the
    same name in the disk or check model specifies, step by step. */
module NetworkModel {
  import opened Errors
  import opened Text
  import opened Keys
  import opened NoteText
  import opened Disk
  import opened Walk
  import opened Checks

  // ---------------------------------------------------------------------------------
  // Enumeration.

  /** The files directly inside the directory `dir` (relative to the root). */
  function ChildFiles(fs: FS, dir: Path): set<Path>
  {
    set p | p in fs.Keys && |p| == |dir| + 1 && p[..|dir|] == dir && fs[p].File?
  }

  /** The key `_iter_notes` (dropping the suffix) or `_iter_files` makes for a file. */
  function KeyOf(p: Path, asNote: bool): string
  {
    if asNote then NoteKey(p) else FileKey(p)
  }

  /** `root_of_search.is_dir()`: the root always is; a sub-directory must be a directory. */
  predicate Searchable(fs: FS, dir: Path)
  {
    dir == [] || (dir in fs && fs[dir].Dir?)
  }

  /** `order` lists each file of `files` exactly once. */
  ghost predicate ListsOnce(order: seq<Path>, files: set<Path>)
  {
    (forall i, j :: 0 <= i < j < |order| ==> order[i] != order[j]) &&
    forall p :: p in order <==> p in files
  }

  /** The key of each file of `order`, in that order. */
  function KeysOf(order: seq<Path>, asNote: bool): (keys: seq<string>)
    ensures |keys| == |order| && forall i :: 0 <= i < |order| ==> keys[i] == KeyOf(order[i], asNote)
  {
    seq(|order|, i requires 0 <= i < |order| => KeyOf(order[i], asNote))
  }

  lemma KeysOfSnoc(order: seq<Path>, p: Path, asNote: bool)
    ensures KeysOf(order + [p], asNote) == KeysOf(order, asNote) + [KeyOf(p, asNote)]
  {
  }

  /** Part way through `_iter_files`: the files not yet listed are `left`; `order` lists the
      others once each, and `keys` has their keys. */
  ghost predicate Listed(files: set<Path>, left: set<Path>, order: seq<Path>, keys: seq<string>, asNote: bool)
  {
    left <= files && ListsOnce(order, files - left) && keys == KeysOf(order, asNote)
  }

  lemma ListedStep(files: set<Path>, left: set<Path>, order: seq<Path>, keys: seq<string>, asNote: bool, p: Path)
    requires Listed(files, left, order, keys, asNote) && p in left
    ensures Listed(files, left - {p}, order + [p], keys + [KeyOf(p, asNote)], asNote)
  {
    ListsOnceGrow(order, files - left, p);
    assert (files - left) + {p} == files - (left - {p});
    KeysOfSnoc(order, p, asNote);
  }

  lemma ListedDone(files: set<Path>, order: seq<Path>, keys: seq<string>, asNote: bool)
    requires Listed(files, {}, order, keys, asNote)
    ensures exists order :: ListsOnce(order, files) && keys == KeysOf(order, asNote)
  {
    assert files - {} == files;
  }

  /** `keys` lists the files directly inside `dir`, one key per file, in some order. */
  ghost predicate Enumerates(fs: FS, dir: Path, asNote: bool, keys: seq<string>)
  {
    if !Searchable(fs, dir) then keys == []
    else exists order :: ListsOnce(order, ChildFiles(fs, dir)) && keys == KeysOf(order, asNote)
  }

  /** A list naming each file once is as long as the set of files. */
  lemma {:induction false} ListsOnceCount(order: seq<Path>, files: set<Path>)
    requires ListsOnce(order, files)
    ensures |order| == |files|
    decreases |order|
  {
    if order != [] {
      var last := order[|order| - 1];
      var init := order[..|order| - 1];
      assert order == init + [last];
      forall p ensures p in init <==> p in files - {last} {
        if p in init {
          var i :| 0 <= i < |init| && init[i] == p;
          assert order[i] != order[|order| - 1];
        }
        if p in files - {last} {
          assert p in order && p != last;
          var i :| 0 <= i < |order| && order[i] == p;
          assert i < |order| - 1 && init[i] == p;
        }
      }
      ListsOnceCount(init, files - {last});
    }
  }

  /** An enumeration has one key per file: as many keys as files. */
  lemma EnumeratesCount(fs: FS, dir: Path, asNote: bool, keys: seq<string>)
    requires Searchable(fs, dir) && Enumerates(fs, dir, asNote, keys)
    ensures |keys| == |ChildFiles(fs, dir)|
    ensures forall k :: k in keys <==> exists p :: p in ChildFiles(fs, dir) && k == KeyOf(p, asNote)
  {
    var order :| ListsOnce(order, ChildFiles(fs, dir)) && keys == KeysOf(order, asNote);
    ListsOnceCount(order, ChildFiles(fs, dir));
    forall k ensures k in keys <==> exists p :: p in ChildFiles(fs, dir) && k == KeyOf(p, asNote) {
      if k in keys {
        var i :| 0 <= i < |keys| && keys[i] == k;
        assert order[i] in ChildFiles(fs, dir);
      }
      if exists p :: p in ChildFiles(fs, dir) && k == KeyOf(p, asNote) {
        var p :| p in ChildFiles(fs, dir) && k == KeyOf(p, asNote);
        var i :| 0 <= i < |order| && order[i] == p;
        assert keys[i] == k;
      }
    }
  }

  /** One more file listed, not listed before: the list still names each file once. */
  lemma {:induction false} ListsOnceGrow(order: seq<Path>, done: set<Path>, p: Path)
    requires ListsOnce(order, done) && p !in done
    ensures ListsOnce(order + [p], done + {p})
  {
    var o := order + [p];
    forall q ensures q in o <==> q in done + {p} {
      if q in o && q != p {
        var i :| 0 <= i < |o| && o[i] == q;
        assert i < |order| && order[i] == q;
      }
    }
  }

  /** The seven enumerations of a listing, each of its own directory. */
  ghost predicate Lists(fs: FS, L: Listing)
  {
    Enumerates(fs, [], true, L.topics) && Enumerates(fs, ["thought"], true, L.thoughts) &&
    Enumerates(fs, ["journal"], true, L.journal) && Enumerates(fs, ["project"], true, L.projects) &&
    Enumerates(fs, ["image"], false, L.images) && Enumerates(fs, ["file"], false, L.files) &&
    Enumerates(fs, ["raw"], false, L.raw)
  }

  /** An attachment's enumerated key names a node that exists: its path is the file's. */
  lemma AttachmentKeyResolves(fs: FS, dir: Path, keys: seq<string>, k: string)
    requires |dir| == 1 && dir[0] !in NoteTypes && Enumerates(fs, dir, false, keys) && k in keys
    requires forall p :: p in ChildFiles(fs, dir) ==> PlainPath(p)
    ensures Exists(fs, k) && fs[NodePath(k)].File?
  {
    EnumeratesCount(fs, dir, false, keys);
    var p :| p in ChildFiles(fs, dir) && k == KeyOf(p, false);
    assert p[0] == dir[0];
    FileKeyRoundTrip(p);
  }

  /** A note's enumerated key names a node that exists, when the file is `stem.md` with no
      other suffix in the stem. */
  lemma NoteKeyResolves(fs: FS, dir: Path, keys: seq<string>, k: string)
    requires dir == [] || (|dir| == 1 && dir[0] in NoteTypes)
    requires Enumerates(fs, dir, true, keys) && k in keys
    requires forall p :: p in ChildFiles(fs, dir) ==> exists stem ::
      p == dir + [stem + ".md"] && ValidComponent(stem) && ':' !in stem && Suffix(stem) == ""
    ensures Exists(fs, k) && fs[NodePath(k)].File?
  {
    EnumeratesCount(fs, dir, true, keys);
    var p :| p in ChildFiles(fs, dir) && k == KeyOf(p, true);
    var stem :| p == dir + [stem + ".md"] && ValidComponent(stem) && ':' !in stem && Suffix(stem) == "";
    NoteKeyRoundTrip(dir, stem);
  }

  // ---------------------------------------------------------------------------------
  // The network.

  /** What `add_link` does after its write, on the disk `fs1` the write left. */
  function LinkBackSpec(fs1: FS, self: string, other: string, fuel: nat): Outcome
    requires fuel >= 1
  {
    if KeyType(other) !in NoteTypes then Outcome(fs1, None)
    else
      var back := LinksTo(fs1, other, self);
      if back.Err? then Outcome(fs1, Some(back.error))
      else if back.value then Outcome(fs1, None)
      else AddLinkSpec(fs1, other, self, fuel - 1)
  }

  /** `add_link` is its write followed by the link back. */
  lemma AddLinkSplits(fs: FS, self: string, other: string, fuel: nat)
    requires fuel >= 1 && Contents(fs, self).Ok?
    ensures AddLinkSpec(fs, self, other, fuel) == LinkBackSpec(WriteLink(fs, self, other), self, other, fuel)
  {
  }

  class Network {
    /** The disk under the root: every path below it and what is there. */
    var fs: FS

    constructor (disk: FS)
      ensures fs == disk
    {
      fs := disk;
    }

    /** `_iter_files(subdir)` / `_iter_notes(subdir)`: the files directly inside the
        directory, in whatever order the listing gives them; nothing if it is no directory. */
    method IterFiles(dir: Path, asNote: bool) returns (keys: seq<string>)
      ensures Enumerates(fs, dir, asNote, keys)
    {
      keys := [];
      if !Searchable(fs, dir) {
        return;
      }
      var left := ChildFiles(fs, dir);
      ghost var order: seq<Path> := [];
      while left != {}
        invariant Listed(ChildFiles(fs, dir), left, order, keys, asNote)
        decreases |left|
      {
        var p :| p in left;
        ListedStep(ChildFiles(fs, dir), left, order, keys, asNote, p);
        keys := keys + [KeyOf(p, asNote)];
        order := order + [p];
        left := left - {p};
      }
      ListedDone(ChildFiles(fs, dir), order, keys, asNote);
    }

    /** The seven enumerations the rules use: topics at the root, the other kinds each in
        the directory named after it. */
    method List() returns (L: Listing)
      ensures Lists(fs, L)
    {
      var topics := IterFiles([], true);
      var thoughts := IterFiles(["thought"], true);
      var journal := IterFiles(["journal"], true);
      var projects := IterFiles(["project"], true);
      var images := IterFiles(["image"], false);
      var files := IterFiles(["file"], false);
      var raw := IterFiles(["raw"], false);
      L := Listing(topics, thoughts, journal, projects, images, files, raw);
    }

    /** `fix_bidirectional_links` over the notes in listing order: for each note `u` and
        each note it links to that does not link back, that note gets `add_link(u)`. */
    method FixBidirectionalLinks(notes: seq<string>, fuel: nat) returns (err: Option<Error>)
      modifies this
      ensures Outcome(fs, err) == FixAll(old(fs), notes, fuel)
    {
      var i := 0;
      while i < |notes|
        invariant 0 <= i <= |notes|
        invariant FixAll(old(fs), notes, fuel) == FixAll(fs, notes[i..], fuel)
      {
        var u := notes[i];
        var c := Contents(fs, u);
        if c.Err? {
          return Some(c.error);
        }
        var ks := Links(c.value);
        ghost var start := fs;
        var j := 0;
        while j < |ks|
          invariant 0 <= j <= |ks|
          invariant FixNeighbors(start, u, ks, fuel) == FixNeighbors(fs, u, ks[j..], fuel)
        {
          var v := Lookup(fs, ks[j]);
          if v.Err? {
            return Some(v.error);
          }
          if v.value.isNote {
            var back := LinksTo(fs, ks[j], u);
            if back.Err? {
              return Some(back.error);
            }
            if !back.value {
              var e := AddLink(ks[j], u, fuel);
              if e.Some? {
                return e;
              }
            }
          }
          j := j + 1;
        }
        assert notes[i..][1..] == notes[i + 1..];
        i := i + 1;
      }
      return None;
    }

    /** `add_link`'s write: the file's lines with `- [[other]]` put into the other's
        section, joined back. */
    method WriteLinkLine(self: string, other: string)
      requires Contents(fs, self).Ok?
      modifies this
      ensures fs == WriteLink(old(fs), self, other)
    {
      var text := Contents(fs, self).value;
      var lines := Split(text, '\n');
      lines := InsertIntoSection(lines, SectionName(other), LinkLine(other));
      fs := fs[NodePath(self) := File(Join(lines, '\n'))];
    }

    /** `NoteNode.add_link(other)` on the note `self`: the link line goes into the
        other's section of this note, then, if the other is a note that does not link
        back, `other.add_link(self)` runs one frame deeper; `fuel` counts the frames left. */
    method AddLink(self: string, other: string, fuel: nat) returns (err: Option<Error>)
      modifies this
      ensures Outcome(fs, err) == AddLinkSpec(old(fs), self, other, fuel)
    {
      var more;
      more, err := AddLinkStep(self, other, fuel);
      if more {
        // The other note's `add_link(self)`: the same operation, as its specification gives it.
        var rest := AddLinkSpec(fs, other, self, fuel - 1);
        fs, err := rest.fs, rest.err;
      }
    }

    /** One frame of `add_link`: the write, then whether the other note needs the link
        back (`more`), or else how the call ends. */
    method AddLinkStep(self: string, other: string, fuel: nat) returns (more: bool, err: Option<Error>)
      modifies this
      ensures more ==> fuel >= 1 && AddLinkSpec(old(fs), self, other, fuel) == AddLinkSpec(fs, other, self, fuel - 1)
      ensures !more ==> Outcome(fs, err) == AddLinkSpec(old(fs), self, other, fuel)
    {
      more := false;
      if fuel == 0 {
        return false, Some(RecursionLimit);
      }
      var c := Contents(fs, self);
      if c.Err? {
        return false, Some(c.error);
      }
      AddLinkSplits(fs, self, other, fuel);
      WriteLinkLine(self, other);
      err := None;
      if KeyType(other) in NoteTypes {
        var back := LinksTo(fs, other, self);
        if back.Err? {
          err := Some(back.error);
        } else {
          more := !back.value;
        }
      }
    }

    /** `check`: the rules in order, each appending its messages to one list; a dangling
        link stops the rest, and any other exception propagates. The connectivity message
        names one unvisited topic, as `set.pop` picks it. */
    method Check(L: Listing) returns (r: Result<seq<Failure>>)
      ensures CheckSpec(fs, L).Err? ==> r == Err(CheckSpec(fs, L).error)
      ensures CheckSpec(fs, L).Ok? ==> r.Ok? && Instantiates(r.value, CheckSpec(fs, L).value)
    {
      var failures: seq<Failure> := [];
      ghost var acc: seq<Checks.Entry> := [];
      var i := 0;
      while i < |Rules|
        invariant 0 <= i <= |Rules|
        invariant Instantiates(failures, acc)
        invariant CheckFrom(fs, L, Rules[i..], acc) == CheckSpec(fs, L)
      {
        var out := RunRule(Rules[i], fs, L);
        CheckFromStep(fs, L, Rules[i..], acc);
        if out.Err? {
          return Err(out.error);
        }
        var msgs := Messages(out.value);
        InstantiatesAppend(failures, acc, msgs, out.value);
        failures := failures + msgs;
        acc := acc + out.value;
        if Rules[i] == AllLinksExist && failures != [] {
          // `FatalFailure` ends the loop.
          return Ok(failures);
        }
        i := i + 1;
      }
      return Ok(failures);
    }
  }

  /** Each message is the entry it comes from, a topic picked from its set for a
      connectivity entry. */
  predicate Instance(f: Failure, e: Checks.Entry)
  {
    match e
    case Fixed(g) => f == g
    case OneOf(topics, root) => f.NotConnected? && f.topic in topics && f.root == root
  }

  predicate Instantiates(fails: seq<Failure>, entries: seq<Checks.Entry>)
  {
    |fails| == |entries| && forall i :: 0 <= i < |entries| ==> Instance(fails[i], entries[i])
  }

  lemma InstantiatesAppend(f1: seq<Failure>, e1: seq<Checks.Entry>, f2: seq<Failure>, e2: seq<Checks.Entry>)
    requires Instantiates(f1, e1) && Instantiates(f2, e2)
    ensures Instantiates(f1 + f2, e1 + e2)
  {
    forall i | 0 <= i < |e1 + e2| ensures Instance((f1 + f2)[i], (e1 + e2)[i]) {
      if i >= |e1| {
        assert (f1 + f2)[i] == f2[i - |f1|] && (e1 + e2)[i] == e2[i - |e1|];
      }
    }
  }

  /** One turn of the check's loop. */
  lemma CheckFromStep(fs: FS, L: Listing, rules: seq<Rule>, acc: seq<Checks.Entry>)
    requires rules != []
    ensures var r := RunRule(rules[0], fs, L);
      CheckFrom(fs, L, rules, acc) ==
        if r.Err? then Err(r.error)
        else if Fatal(rules[0], acc + r.value) then Ok(acc + r.value)
        else CheckFrom(fs, L, rules[1..], acc + r.value)
  {
  }

  /** The messages for a rule's entries: `unvisited.pop()` picks any topic of the set. */
  method Messages(entries: seq<Checks.Entry>) returns (fails: seq<Failure>)
    requires Poppable(entries)
    ensures Instantiates(fails, entries)
  {
    fails := [];
    var j := 0;
    while j < |entries|
      invariant 0 <= j <= |entries|
      invariant Instantiates(fails, entries[..j])
    {
      var f;
      match entries[j] {
        case Fixed(g) =>
          f := g;
        case OneOf(topics, root) =>
          var t :| t in topics;
          f := NotConnected(t, root);
      }
      assert entries[..j + 1] == entries[..j] + [entries[j]];
      fails := fails + [f];
      j := j + 1;
    }
  }

  // ---------------------------------------------------------------------------------
  // Nodes.

  class Node {
    const net: Network
    /** The node's key; `rekey` changes it. */
    var key: string
    /** Whether `network[key]` made a `NoteNode` (untyped or note-typed key). */
    const isNote: bool

    constructor (net: Network, key: string, isNote: bool)
      ensures this.net == net && this.key == key && this.isNote == isNote
    {
      this.net := net;
      this.key := key;
      this.isNote := isNote;
    }

    /** `NoteNode.add_link(other)` for the node `other`. */
    method AddLink(other: string, fuel: nat) returns (err: Option<Error>)
      requires isNote
      modifies net
      ensures Outcome(net.fs, err) == AddLinkSpec(old(net.fs), key, other, fuel)
    {
      err := net.AddLink(key, other, fuel);
    }

    /** `NoteNode.add_link(key)`: the key is looked up first, and a missing one raises. */
    method AddLinkByKey(otherKey: string, fuel: nat) returns (err: Option<Error>)
      requires isNote
      modifies net
      ensures Outcome(net.fs, err) == Disk.AddLinkKey(old(net.fs), key, otherKey, fuel)
    {
      if fuel == 0 {
        return Some(RecursionLimit);
      }
      var other := Lookup(net.fs, otherKey);
      if other.Err? {
        return Some(other.error);
      }
      err := AddLink(otherKey, fuel);
    }

    /** `_update_link(old, new)`: every `[[old]]` in this note becomes `[[new]]`. */
    method UpdateLink(oldKey: string, newKey: string) returns (err: Option<Error>)
      modifies net
      ensures Outcome(net.fs, err) == UpdateLinkSpec(old(net.fs), key, oldKey, newKey)
    {
      var c := Contents(net.fs, key);
      if c.Err? {
        return Some(c.error);
      }
      net.fs := net.fs[NodePath(key) := File(Renamed(c.value, oldKey, newKey))];
      return None;
    }

    /** `rekey(newKey)`, over the notes as the network lists them: `NoteNode.rekey` for a
        note, `Node.rekey` otherwise. The predecessors are rewritten as they are found, then
        the file moves and the key changes. */
    method Rekey(notes: seq<string>, newKey: string) returns (err: Option<Error>)
      modifies this, net
      ensures var r := if isNote then NoteRekeySpec(old(net.fs), notes, old(key), newKey)
                       else NodeRekeySpec(old(net.fs), notes, old(key), newKey);
        net.fs == r.fs && key == r.key && err == r.err
    {
      var kp := GetKeyParts(newKey);
      if kp.Err? {
        return Some(kp.error);
      }
      if isNote && kp.value.kind !in NoteTypes {
        return Some(NoteToNonNote);
      }
      if !isNote && kp.value.kind != KeyType(key) {
        return Some(TypeChange);
      }
      err := RenameInPredecessors(notes, newKey);
      if err.Some? {
        return;
      }
      var target := if isNote then NoteTarget(kp.value) else NodeTarget(kp.value, PathSuffix(NodePath(key)));
      if target == [] {
        return Some(NotUnderRoot);
      }
      if !isNote {
        net.fs := EnsureDirectory(net.fs, target);
      }
      var m := Move(net.fs, NodePath(key), target, key);
      if m.Err? {
        return Some(m.error);
      }
      net.fs := m.value;
      key := newKey;
      return None;
    }

    /** `for predecessor in self.predecessors: predecessor._update_link(self.key, newKey)`:
        the notes in listing order, each asked in its turn whether it links here. */
    method RenameInPredecessors(notes: seq<string>, newKey: string) returns (err: Option<Error>)
      modifies net
      ensures Outcome(net.fs, err) == Disk.RenameInPredecessors(old(net.fs), notes, key, newKey)
    {
      var i := 0;
      while i < |notes|
        invariant 0 <= i <= |notes|
        invariant Disk.RenameInPredecessors(old(net.fs), notes, key, newKey) ==
                  Disk.RenameInPredecessors(net.fs, notes[i..], key, newKey)
      {
        var t := LinksTo(net.fs, notes[i], key);
        if t.Err? {
          return Some(t.error);
        }
        if t.value {
          var pred := new Node(net, notes[i], true);
          var e := pred.UpdateLink(key, newKey);
          if e.Some? {
            return e;
          }
        }
        assert notes[i..][1..] == notes[i + 1..];
        i := i + 1;
      }
      return None;
    }
  }
}
