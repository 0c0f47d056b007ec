/** Keys and the paths they denote: `Node.type`, `Node.path`, the key makers used by the
    enumerations, `get_key_parts` and the command line's `_key_from_path`.

    A path is a sequence of pathlib components relative to the network's root. */
module Keys {
  import opened Text
  import opened Errors

  /** The types whose nodes are notes (carry links). */
  const NoteTypes: set<string> := {"topic", "project", "thought", "journal"}

  type Path = seq<string>

  lemma NoteTypePlain(t: string)
    requires t in NoteTypes
    ensures ValidComponent(t) && ':' !in t
  {
    if t == "topic" {
      assert t == ['t', 'o', 'p', 'i', 'c'];
    } else if t == "project" {
      assert t == ['p', 'r', 'o', 'j', 'e', 'c', 't'];
    } else if t == "thought" {
      assert t == ['t', 'h', 'o', 'u', 'g', 'h', 't'];
    } else {
      assert t == ['j', 'o', 'u', 'r', 'n', 'a', 'l'];
    }
  }

  /** A component pathlib keeps: not empty, not ".", no separator. */
  predicate ValidComponent(c: string)
  {
    c != "" && c != "." && '/' !in c
  }

  /** Every component is one pathlib keeps and none holds a ':'. */
  predicate PlainPath(p: Path)
  {
    forall i :: 0 <= i < |p| ==> ValidComponent(p[i]) && ':' !in p[i]
  }

  lemma PlainPair(a: string, b: string)
    requires ValidComponent(a) && ':' !in a && ValidComponent(b) && ':' !in b
    ensures PlainPath([a, b])
  {
  }

  lemma {:induction false} SplitKeepsOut(s: string, sep: char, c: char)
    requires c !in s
    ensures forall i :: 0 <= i < |Split(s, sep)| ==> c !in Split(s, sep)[i]
    decreases |s|
  {
    if s != [] {
      SplitKeepsOut(s[1..], sep, c);
    }
  }

  /** `Node.type`: the text before the first ':', or "topic" for a key without one. */
  function KeyType(key: string): (t: string)
    ensures ':' !in key ==> t == "topic"
    ensures ':' in key ==> ':' !in t && |t| < |key| && key[..|t|] == t && key[|t|] == ':'
  {
    var parts := Split(key, ':');
    SplitHead(key, ':');
    if |parts| > 1 then
      assert key == parts[0] + ([':'] + Join(parts[1..], ':'));
      parts[0]
    else "topic"
  }

  /** pathlib drops empty and "." components when it parses a path. */
  function Components(parts: seq<string>): (p: Path)
    ensures forall i :: 0 <= i < |p| ==> p[i] != "" && p[i] != "."
    ensures (forall i :: 0 <= i < |parts| ==> parts[i] != "" && parts[i] != ".") ==> p == parts
  {
    if parts == [] then []
    else
      var rest := Components(parts[1..]);
      if parts[0] == "" || parts[0] == "." then rest
      else
        [parts[0]] + rest
  }

  /** The components of `root / text`, relative to the root. */
  function PathOf(text: string): (p: Path)
    ensures forall i :: 0 <= i < |p| ==> ValidComponent(p[i])
  {
    ComponentsKeepOut(Split(text, '/'), '/');
    Components(Split(text, '/'))
  }

  /** A character no part holds is in no component either. */
  lemma {:induction false} ComponentsKeepOut(parts: seq<string>, c: char)
    requires forall i :: 0 <= i < |parts| ==> c !in parts[i]
    ensures forall i :: 0 <= i < |Components(parts)| ==> c !in Components(parts)[i]
    decreases |parts|
  {
    if parts != [] {
      ComponentsKeepOut(parts[1..], c);
    }
  }

  /** The components of `root / key.replace(':', '/')`. */
  function KeyPath(key: string): (p: Path)
    ensures PlainPath(p)
  {
    var text := ReplaceChar(key, ':', '/');
    SplitKeepsOut(text, '/', ':');
    ComponentsKeepOut(Split(text, '/'), ':');
    PathOf(text)
  }

  /** pathlib's `suffix` of a file name: from the last '.', unless that dot is its first or last character. */
  function Suffix(name: string): (sfx: string)
    ensures sfx == "" || (|sfx| >= 2 && sfx[0] == '.' && '.' !in sfx[1..] && |sfx| < |name| && name[|name| - |sfx|..] == sfx)
  {
    var i := RFind(name, '.');
    if 0 < i < |name| - 1 then name[i..] else ""
  }

  /** pathlib's `with_suffix`: replace the last component's suffix (or add one). */
  function WithSuffix(p: Path, sfx: string): (q: Path)
    ensures |q| == |p|
    ensures p != [] ==> q[..|p| - 1] == p[..|p| - 1]
  {
    if p == [] then p
    else
      var name := p[|p| - 1];
      var stem := name[..|name| - |Suffix(name)|];
      p[..|p| - 1] + [stem + sfx]
  }

  /** `name` is `prev` with its suffix replaced by `sfx`: the stem of `prev` (all of it but
      its suffix) followed by `sfx`. */
  predicate IsStemOf(name: string, prev: string, sfx: string) {
    var n := |prev| - |Suffix(prev)|;
    |name| == n + |sfx| && name[..n] == prev[..n] && name[n..] == sfx
  }

  /** A name has no suffix exactly when it ends with its dot or has no dot strictly inside it. */
  lemma SuffixEmptyIff(name: string)
    ensures Suffix(name) == "" <==> (name != [] && name[|name| - 1] == '.') || forall i :: 0 < i < |name| - 1 ==> name[i] != '.'
  {
  }

  /** `with_suffix` keeps the stem of the last component and puts `sfx` after it. */
  lemma WithSuffixKeepsStem(p: Path, sfx: string)
    requires p != []
    ensures IsStemOf(WithSuffix(p, sfx)[|p| - 1], p[|p| - 1], sfx)
  {
  }

  /** A suffix of pathlib's form put after a non-empty stem is what `suffix` reads back. */
  lemma {:induction false} SuffixOfStem(stem: string, sfx: string)
    requires stem != [] && |sfx| >= 2 && sfx[0] == '.' && '.' !in sfx[1..]
    ensures Suffix(stem + sfx) == sfx
  {
    var name := stem + sfx;
    assert name[|stem|] == '.';
    forall j | |stem| < j < |name| ensures name[j] != '.' {
      assert name[j] == sfx[1..][j - |stem| - 1];
    }
    assert RFind(name, '.') == |stem|;
    assert name[|stem|..] == sfx;
  }

  /** `with_suffix` followed by `suffix` gives back the new suffix, for any name. */
  lemma {:induction false} WithSuffixThenSuffix(p: Path, sfx: string)
    requires p != [] && p[|p| - 1] != ""
    requires |sfx| >= 2 && sfx[0] == '.' && '.' !in sfx[1..]
    ensures Suffix(WithSuffix(p, sfx)[|p| - 1]) == sfx
  {
    var name := p[|p| - 1];
    var stem := name[..|name| - |Suffix(name)|];
    assert stem != [];
    assert WithSuffix(p, sfx)[|p| - 1] == stem + sfx;
    SuffixOfStem(stem, sfx);
  }

  lemma {:induction false} WithSuffixOfPlainName(p: Path, sfx: string)
    requires p != [] && Suffix(p[|p| - 1]) == ""
    ensures WithSuffix(p, sfx) == p[..|p| - 1] + [p[|p| - 1] + sfx]
  {
    var name := p[|p| - 1];
    assert name[..|name| - 0] == name;
  }

  lemma {:induction false} AppendMdKeepsPlain(p: Path)
    requires p != [] && PlainPath(p)
    ensures PlainPath(p[..|p| - 1] + [p[|p| - 1] + ".md"])
  {
    var last := p[|p| - 1] + ".md";
    forall i | 0 <= i < |last| ensures last[i] != '/' && last[i] != ':' {
      if i < |p[|p| - 1]| {
        assert last[i] == p[|p| - 1][i];
      }
    }
    assert |last| >= 4;
    var q := p[..|p| - 1] + [last];
    forall i | 0 <= i < |q| ensures ValidComponent(q[i]) && ':' !in q[i] {
      if i < |p| - 1 {
        assert q[i] == p[i];
      }
    }
  }

  /** The ".md" rule of `Node.path`: a note-typed path whose last component has no
      suffix gets ".md" appended to that component. */
  function AddMd(p: Path, kind: string): (q: Path)
    requires PlainPath(p)
    ensures PlainPath(q)
  {
    if p != [] && Suffix(p[|p| - 1]) == "" && kind in NoteTypes then
      WithSuffixOfPlainName(p, ".md");
      AppendMdKeepsPlain(p);
      WithSuffix(p, ".md")
    else p
  }

  /** `Node.path`, relative to the root. */
  function NodePath(key: string): (p: Path)
    ensures PlainPath(p)
  {
    AddMd(KeyPath(key), KeyType(key))
  }

  /** The path differs from the key's plain components exactly when the key is note-typed
      and its last component has no suffix, and then only by ".md" on that component. */
  lemma NodePathAddsMdOnlyToNotes(key: string)
    ensures NodePath(key) != KeyPath(key) <==>
      KeyType(key) in NoteTypes && KeyPath(key) != [] && Suffix(KeyPath(key)[|KeyPath(key)| - 1]) == ""
    ensures NodePath(key) != KeyPath(key) ==>
      var p := KeyPath(key);
      NodePath(key) == p[..|p| - 1] + [p[|p| - 1] + ".md"]
  {
    var p := KeyPath(key);
    if p != [] && Suffix(p[|p| - 1]) == "" && KeyType(key) in NoteTypes {
      WithSuffixOfPlainName(p, ".md");
      assert |NodePath(key)[|p| - 1]| == |p[|p| - 1]| + 3;
    }
  }

  /** The key `_iter_notes` makes for a file: its relative path without suffix, '/' read as ':'. */
  function NoteKey(rel: Path): string
  {
    ReplaceChar(Join(WithSuffix(rel, ""), '/'), '/', ':')
  }

  /** The key `_iter_files` makes for a file: its relative path, '/' read as ':'. */
  function FileKey(rel: Path): string
  {
    ReplaceChar(Join(rel, '/'), '/', ':')
  }

  lemma {:induction false} PathOfJoin(p: Path)
    requires |p| >= 1
    requires forall i :: 0 <= i < |p| ==> ValidComponent(p[i])
    ensures PathOf(Join(p, '/')) == p
  {
    SplitJoin(p, '/');
  }

  lemma {:induction false} PlainKeyParts(p: Path)
    requires |p| >= 1 && PlainPath(p)
    ensures KeyPath(Join(p, ':')) == p
    ensures KeyType(Join(p, ':')) == if |p| == 1 then "topic" else p[0]
  {
    ReplaceCharJoin(p, ':', '/');
    PathOfJoin(p);
    SplitJoin(p, ':');
    if |p| == 1 {
      assert Join(p, ':') == p[0];
    } else {
      JoinCons(p[0], p[1..], ':');
      assert p == [p[0]] + p[1..];
      assert ':' in Join(p, ':') by {
        assert Join(p, ':')[|p[0]|] == ':';
      }
    }
  }

  /** An attachment's enumerated key leads back to the file it was made from. */
  lemma {:induction false} FileKeyRoundTrip(rel: Path)
    requires |rel| >= 2 && rel[0] !in NoteTypes && PlainPath(rel)
    ensures NodePath(FileKey(rel)) == rel
  {
    ReplaceCharJoin(rel, '/', ':');
    PlainKeyParts(rel);
  }

  lemma {:induction false} SuffixOfMd(stem: string)
    requires stem != [] && '/' !in stem
    ensures Suffix(stem + ".md") == ".md"
  {
    var name := stem + ".md";
    assert name[|stem|] == '.' && name[|stem| + 1] == 'm' && name[|stem| + 2] == 'd';
    assert RFind(name, '.') == |stem|;
    assert name[|stem|..] == ".md";
  }

  /** A note key spelled out from plain components gets ".md" added to its last one. */
  lemma {:induction false} NodePathOfPlainNote(p: Path)
    requires |p| >= 1 && PlainPath(p) && Suffix(p[|p| - 1]) == ""
    requires |p| == 1 || p[0] in NoteTypes
    ensures NodePath(Join(p, ':')) == p[..|p| - 1] + [p[|p| - 1] + ".md"]
  {
    var key := Join(p, ':');
    PlainKeyParts(p);
    assert KeyPath(key) == p;
    assert KeyType(key) in NoteTypes;
    assert NodePath(key) == WithSuffix(p, ".md");
    WithSuffixOfPlainName(p, ".md");
  }

  /** Dropping the suffix of `stem.md` leaves the stem. */
  lemma {:induction false} DropMd(dir: Path, stem: string)
    requires stem != [] && '/' !in stem
    ensures WithSuffix(dir + [stem + ".md"], "") == dir + [stem]
  {
    var rel := dir + [stem + ".md"];
    var name := stem + ".md";
    SuffixOfMd(stem);
    assert rel[..|rel| - 1] == dir && rel[|rel| - 1] == name;
    assert name[..|name| - 3] + "" == stem;
  }

  /** A note's path components, before ".md" is added, are plain. */
  lemma NoteStemPlain(dir: Path, stem: string)
    requires dir == [] || (|dir| == 1 && dir[0] in NoteTypes)
    requires ValidComponent(stem) && ':' !in stem
    ensures PlainPath(dir + [stem])
  {
    var p := dir + [stem];
    if dir != [] {
      NoteTypePlain(dir[0]);
    }
    forall i | 0 <= i < |p| ensures ValidComponent(p[i]) && ':' !in p[i] {
      if i < |dir| { assert p[i] == dir[0]; } else { assert p[i] == stem; }
    }
  }

  /** A note's enumerated key leads back to the file it was made from, when the file
      name is a stem without suffix followed by ".md". */
  lemma {:induction false} NoteKeyRoundTrip(dir: Path, stem: string)
    requires dir == [] || (|dir| == 1 && dir[0] in NoteTypes)
    requires ValidComponent(stem) && ':' !in stem && Suffix(stem) == ""
    ensures NodePath(NoteKey(dir + [stem + ".md"])) == dir + [stem + ".md"]
  {
    var p := dir + [stem];
    NoteKeyOfMd(dir, stem);
    NoteStemPlain(dir, stem);
    NodePathOfPlainNote(p);
    assert p[..|p| - 1] == dir;
  }

  datatype KeyParts = KeyParts(kind: string, name: string)

  /** `get_key_parts`: split a key into its type and name. */
  function GetKeyParts(key: string): (r: Result<KeyParts>)
    ensures r.Err? <==> multiset(key)[':'] >= 2
    ensures ':' !in key ==> r == Ok(KeyParts("topic", key))
    ensures r.Ok? && ':' in key ==> r.value.kind + ":" + r.value.name == key
    ensures r.Ok? ==> ':' !in r.value.name && r.value.kind == KeyType(key)
  {
    var parts := Split(key, ':');
    SplitCount(key, ':');
    JoinSplit(key, ':');
    if |parts| > 2 then Err(MalformedKey(key))
    else if |parts| == 2 then
      assert ':' in key by { assert multiset(key)[':'] == 1; }
      assert parts[1..] == [parts[1]];
      Ok(KeyParts(parts[0], parts[1]))
    else Ok(KeyParts("topic", key))
  }

  /** The text before the first separator is determined by the text. */
  lemma FirstSeparator(a: string, b: string, a': string, b': string, c: char)
    requires c !in a && c !in a' && a + [c] + b == a' + [c] + b'
    ensures a == a' && b == b'
  {
    var s := a + [c] + b;
    assert forall k :: 0 <= k < |a| ==> s[k] == a[k];
    assert forall k :: 0 <= k < |a'| ==> s[k] == a'[k];
    assert s[|a|] == c && s[|a'|] == c;
    assert |a| == |a'|;
    assert a == s[..|a|] == a';
    assert b == s[|a| + 1..] == b';
  }

  predicate IsPrefix(root: Path, path: Path)
  {
    |root| <= |path| && path[..|root|] == root
  }

  /** The command line's `_key_from_path`: the key a file path names, from the path alone. */
  function KeyFromPath(path: Path, root: Path): (r: Result<string>)
    ensures r.Err? <==> !IsPrefix(root, path)
    ensures IsPrefix(root, path) && |path| == |root| + 1 && '/' !in path[|root|] ==>
      r == Ok(DropLast3(path[|root|]))
    ensures IsPrefix(root, path) && |path| >= |root| + 2 && (forall i :: |root| <= i < |path| ==> '/' !in path[i]) ==>
      var kind := path[|root|];
      var key := kind + ":" + Join(path[|root| + 1..], '/');
      r == Ok(if kind in NoteTypes then DropLast3(key) else key)
  {
    if !IsPrefix(root, path) then Err(NotUnderRoot)
    else
      var rel := path[|root|..];
      var text := if rel == [] then "." else Join(rel, '/');
      var parts := SplitOnce(text, '/');
      var kind := if |parts| == 1 then "topic" else parts[0];
      var key := if |parts| == 1 then parts[0] else kind + ":" + parts[1];
      if |rel| >= 2 && (forall i :: 0 <= i < |rel| ==> '/' !in rel[i]) then
        JoinCons(rel[0], rel[1..], '/');
        assert rel == [rel[0]] + rel[1..];
        assert text == rel[0] + ['/'] + Join(rel[1..], '/');
        assert '/' in text by { assert text[|rel[0]|] == '/'; }
        FirstSeparator(parts[0], parts[1], rel[0], Join(rel[1..], '/'), '/');
        assert rel[1..] == path[|root| + 1..];
        Ok(if kind in NoteTypes then DropLast3(key) else key)
      else
        Ok(if kind in NoteTypes then DropLast3(key) else key)
  }

  /** A note file's enumerated key is its directory and stem joined by ':'. */
  lemma {:induction false} NoteKeyOfMd(dir: Path, stem: string)
    requires dir == [] || (|dir| == 1 && dir[0] in NoteTypes)
    requires ValidComponent(stem)
    ensures NoteKey(dir + [stem + ".md"]) == Join(dir + [stem], ':')
  {
    var p := dir + [stem];
    DropMd(dir, stem);
    if dir != [] {
      NoteTypePlain(dir[0]);
    }
    forall i | 0 <= i < |p| ensures '/' !in p[i] {
      if i < |dir| { assert p[i] == dir[0]; } else { assert p[i] == stem; }
    }
    ReplaceCharJoin(p, '/', ':');
  }

  lemma MdNamePlain(stem: string)
    requires '/' !in stem
    ensures '/' !in stem + ".md"
  {
    assert ".md" == ['.', 'm', 'd'];
  }

  lemma DropMdText(a: string)
    ensures DropLast3(a + ".md") == a
  {
    assert (a + ".md")[..|a|] == a;
  }

  /** A note file `kind/x.md` (or a topic file `x.md`) gets from the command line the key
      the enumeration gives it (which leads back to the file, by NoteKeyRoundTrip). */
  lemma {:induction false} KeyFromPathRoundTrip(root: Path, dir: Path, stem: string)
    requires dir == [] || (|dir| == 1 && dir[0] in NoteTypes)
    requires ValidComponent(stem) && ':' !in stem && Suffix(stem) == ""
    ensures KeyFromPath(root + dir + [stem + ".md"], root) == Ok(NoteKey(dir + [stem + ".md"]))
  {
    NoteKeyOfMd(dir, stem);
    MdNamePlain(stem);
    if dir == [] {
      TopicFromPath(root, stem);
    } else {
      NoteTypePlain(dir[0]);
      assert dir == [dir[0]];
      NoteFromPath(root, dir[0], stem);
    }
  }

  lemma TopicFromPath(root: Path, stem: string)
    requires '/' !in stem + ".md"
    ensures KeyFromPath(root + [] + [stem + ".md"], root) == Ok(Join([] + [stem], ':'))
  {
    var path := root + [] + [stem + ".md"];
    assert IsPrefix(root, path) && path[|root|] == stem + ".md" && |path| == |root| + 1;
    DropMdText(stem);
  }

  lemma NoteFromPath(root: Path, kind: string, stem: string)
    requires kind in NoteTypes && '/' !in kind && '/' !in stem + ".md"
    ensures KeyFromPath(root + [kind] + [stem + ".md"], root) == Ok(Join([kind] + [stem], ':'))
  {
    var path := root + [kind] + [stem + ".md"];
    assert IsPrefix(root, path) && |path| == |root| + 2;
    assert path[|root|] == kind && path[|root| + 1..] == [stem + ".md"];
    JoinPair(kind, stem, ':');
    assert [kind] + [stem] == [kind, stem];
    DropMdText(kind + ":" + stem);
    assert kind + ":" + Join([stem + ".md"], '/') == (kind + ":" + stem) + ".md";
  }
}
