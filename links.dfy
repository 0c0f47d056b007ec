/** The text of a note: the `[[key]]` links it holds, the section a new link line goes
    into, and the rewrite that renames a link. */
module NoteText {
  import opened Text
  import opened Errors

  /** A key with no bracket and no newline; such a key survives being written as `[[key]]`
      and read back. */
  predicate CleanKey(k: string)
  {
    forall i :: 0 <= i < |k| ==> k[i] != '[' && k[i] != ']' && k[i] != '\n'
  }

  /** Where the lazy `.*?\]\]` part of the link pattern ends: the index of the first "]]"
      in `t`, provided no newline comes before it ('.' does not match a newline). */
  function Close(t: string): (r: Option<nat>)
    ensures r.Some? ==> r.value + 2 <= |t|
    decreases |t|
  {
    if |t| < 2 then None
    else if t[0] == ']' && t[1] == ']' then Some(0)
    else if t[0] == '\n' then None
    else
      var r := Close(t[1..]);
      if r.None? then None else Some(r.value + 1)
  }

  /** `Close` finds the first "]]" that no newline precedes, and nothing else. */
  lemma {:induction false} CloseIsFirst(t: string)
    ensures var r := Close(t);
      (r.Some? ==> t[r.value] == ']' && t[r.value + 1] == ']') &&
      (r.Some? ==> forall j :: 0 <= j < r.value ==> t[j] != '\n' && !(t[j] == ']' && t[j + 1] == ']')) &&
      (r.None? ==> forall j :: 0 <= j < |t| - 1 && t[j] == ']' && t[j + 1] == ']' ==> '\n' in t[..j])
    decreases |t|
  {
    if |t| >= 2 && !(t[0] == ']' && t[1] == ']') && t[0] != '\n' {
      CloseIsFirst(t[1..]);
      assert forall j :: 1 <= j < |t| ==> t[j] == t[1..][j - 1];
      var r := Close(t[1..]);
      if r.None? {
        forall j | 0 <= j < |t| - 1 && t[j] == ']' && t[j + 1] == ']' ensures '\n' in t[..j] {
          assert j >= 1;
          assert '\n' in t[1..][..j - 1];
          assert t[1..][..j - 1] == t[1..j];
        }
      }
    }
  }

  /** `s.lstrip('[]')` */
  function StripLeft(s: string): (r: string)
    ensures |r| <= |s| && r == s[|s| - |r|..]
    ensures r != [] ==> r[0] != '[' && r[0] != ']'
    ensures (s == [] || (s[0] != '[' && s[0] != ']')) ==> r == s
    decreases |s|
  {
    if s != [] && (s[0] == '[' || s[0] == ']') then StripLeft(s[1..]) else s
  }

  /** `s.rstrip('[]')` */
  function StripRight(s: string): (r: string)
    ensures |r| <= |s| && r == s[..|r|]
    ensures r != [] ==> r[|r| - 1] != '[' && r[|r| - 1] != ']'
    ensures (s == [] || (s[|s| - 1] != '[' && s[|s| - 1] != ']')) ==> r == s
    decreases |s|
  {
    if s != [] && (s[|s| - 1] == '[' || s[|s| - 1] == ']') then StripRight(s[..|s| - 1]) else s
  }

  /** `s.strip('[]')`: the text without its leading and trailing brackets. */
  function Strip(s: string): string
  {
    StripRight(StripLeft(s))
  }

  /** `re.findall(r'\[\[.*?\]\]', s)` with the brackets stripped from every match: the keys
      of the links in `s`, in textual order, duplicates kept. */
  function Links(s: string): seq<string>
    decreases |s|
  {
    if |s| < 2 then []
    else if s[0] == '[' && s[1] == '[' then
      match Close(s[2..])
      case Some(k) => [Strip(s[..k + 4])] + Links(s[k + 4..])
      case None => Links(s[1..])
    else Links(s[1..])
  }

  /** A match found at the start of `s` is exactly the shortest single-line `[[...]]`. */
  lemma LinkAtStart(s: string, k: nat)
    requires |s| >= 2 && s[0] == '[' && s[1] == '[' && Close(s[2..]) == Some(k)
    ensures k + 4 <= |s| && Links(s) == [Strip(s[..k + 4])] + Links(s[k + 4..])
  {
    CloseWithin(s, k);
    LinkAtStartWithin(s, k);
  }

  lemma CloseWithin(s: string, k: nat)
    requires |s| >= 2 && Close(s[2..]) == Some(k)
    ensures k + 4 <= |s|
  {
  }

  lemma LinkAtStartWithin(s: string, k: nat)
    requires |s| >= 2 && s[0] == '[' && s[1] == '[' && Close(s[2..]) == Some(k) && k + 4 <= |s|
    ensures Links(s) == [Strip(s[..k + 4])] + Links(s[k + 4..])
  {
  }

  /** Text without an opening bracket holds no link. */
  lemma {:induction false} NoOpenNoLinks(s: string)
    requires '[' !in s
    ensures Links(s) == []
    decreases |s|
  {
    if |s| >= 2 {
      NoOpenNoLinks(s[1..]);
    }
  }

  /** Text in which no link can start, whatever follows it: every '[' in it is followed,
      inside the text, by a character other than '['. Single brackets, as in a checkbox
      `[ ]` or a Markdown link `[x](y)`, are allowed. */
  predicate PlainRun(t: string)
  {
    forall i :: 0 <= i < |t| && t[i] == '[' ==> i + 1 < |t| && t[i + 1] != '['
  }

  /** A plain run stays one without its first character. */
  lemma PlainRunTail(t: string)
    requires t != [] && PlainRun(t)
    ensures PlainRun(t[1..])
  {
    forall i | 0 <= i < |t[1..]| && t[1..][i] == '[' ensures i + 1 < |t[1..]| && t[1..][i + 1] != '[' {
      assert t[i + 1] == '[';
    }
  }

  /** Text without an opening bracket is a plain run. */
  lemma NoBracketPlainRun(t: string)
    requires '[' !in t
    ensures PlainRun(t)
  {
  }

  /** A plain run in front of other text adds no link to it. */
  lemma {:induction false} LinksAfterPlain(x: string, y: string)
    requires PlainRun(x)
    ensures Links(x + y) == Links(y)
    decreases |x|
  {
    if x != [] {
      var s := x + y;
      assert s[0] == x[0] && s[1..] == x[1..] + y;
      assert x[0] == '[' ==> s[1] == x[1] && x[1] != '[';
      PlainRunTail(x);
      LinksAfterPlain(x[1..], y);
      if |s| < 2 {
        assert |y| < 2;
        assert Links(y) == [];
      } else {
        assert Links(s) == Links(s[1..]);
      }
    } else {
      assert x + y == y;
    }
  }

  /** A clean key between double brackets closes at the brackets after it. */
  lemma {:induction false} CloseAfterKey(k: string, rest: string)
    requires CleanKey(k)
    ensures Close(k + "]]" + rest) == Some(|k|)
    decreases |k|
  {
    var t := k + "]]" + rest;
    if k != [] {
      assert t[1..] == k[1..] + "]]" + rest;
      CloseAfterKey(k[1..], rest);
    }
  }

  lemma StripMarker(k: string)
    requires CleanKey(k)
    ensures Strip("[[" + k + "]]") == k
  {
    var s := "[[" + k + "]]";
    var t := k + "]]";
    assert s[2..] == t;
    StripLeftOpening(s);
    if k == [] {
      assert t == "]]" && t[1..] == "]";
    } else {
      assert StripLeft(t) == t;
      StripRightMarker(k);
    }
  }

  lemma StripLeftOpening(s: string)
    requires |s| >= 2 && s[0] == '[' && s[1] == '['
    ensures StripLeft(s) == StripLeft(s[2..])
  {
    assert StripLeft(s) == StripLeft(s[1..]);
    assert s[1..][1..] == s[2..];
  }

  lemma StripRightMarker(k: string)
    requires CleanKey(k) && k != []
    ensures StripRight(k + "]]") == k
  {
    var t := k + "]]";
    var u := k + "]";
    assert t[..|t| - 1] == u && u[..|u| - 1] == k;
    assert StripRight(t) == StripRight(u);
    assert StripRight(u) == StripRight(k);
  }

  /** A link `[[k]]` at the start of the text is read back as `k`. */
  lemma LinksOfMarker(k: string, rest: string)
    requires CleanKey(k)
    ensures Links("[[" + k + "]]" + rest) == [k] + Links(rest)
  {
    var s := "[[" + k + "]]" + rest;
    assert s[2..] == k + "]]" + rest;
    CloseAfterKey(k, rest);
    LinkAtStart(s, |k|);
    assert s[..|k| + 4] == "[[" + k + "]]";
    StripMarker(k);
    assert s[|k| + 4..] == rest;
  }

  /** The line `add_link` writes, `- [[k]]`, holds exactly the link `k`. */
  lemma LinkLineHoldsKey(k: string)
    requires CleanKey(k)
    ensures Links("- [[" + k + "]]") == [k]
  {
    var link := "[[" + k + "]]";
    assert "- [[" + k + "]]" == "- " + link;
    assert link + "" == link;
    NoBracketPlainRun("- ");
    LinksAfterPlain("- ", link);
    LinksOfMarker(k, "");
  }

  /** A newline ends the search for a closing "]]". */
  lemma {:induction false} CloseNewline(t: string, nb: string)
    requires nb != [] && nb[0] == '\n'
    ensures Close(t + nb) == Close(t)
    decreases |t|
  {
    var s := t + nb;
    if |t| >= 2 {
      assert s[0] == t[0] && s[1] == t[1];
      assert s[1..] == t[1..] + nb;
      CloseNewline(t[1..], nb);
    } else if |t| == 1 {
      assert s[0] == t[0] && s[1] == '\n';
      assert s[1..] == nb;
    } else {
      assert s == nb;
    }
  }

  /** Links never span a newline: the links of text, a newline and more text are those of
      each side in turn (`nb` is the newline followed by the second text). */
  lemma {:induction false} LinksNewline(a: string, nb: string)
    requires nb != [] && nb[0] == '\n'
    ensures Links(a + nb) == Links(a) + Links(nb[1..])
    decreases |a|, 2
  {
    var s := a + nb;
    if a == [] {
      assert s == nb;
      if |s| >= 2 {
        assert Links(s) == Links(s[1..]);
      }
    } else if |a| == 1 {
      assert s[0] == a[0] && s[1] == '\n';
      assert s[1..] == nb;
      LinksNewline([], nb);
      assert [] + nb == nb;
      assert Links(s) == Links(s[1..]);
    } else if a[0] == '[' && a[1] == '[' {
      LinksNewlineAtOpen(a, nb);
    } else {
      assert s[0] == a[0] && s[1] == a[1];
      assert s[1..] == a[1..] + nb;
      LinksNewline(a[1..], nb);
      assert Links(s) == Links(s[1..]);
      assert Links(a) == Links(a[1..]);
    }
  }

  lemma {:induction false} LinksNewlineAtOpen(a: string, nb: string)
    requires nb != [] && nb[0] == '\n'
    requires |a| >= 2 && a[0] == '[' && a[1] == '['
    ensures Links(a + nb) == Links(a) + Links(nb[1..])
    decreases |a|, 1
  {
    if Close(a[2..]).Some? {
      var k := Close(a[2..]).value;
      var rest := a[k + 4..];
      LinksAtMatchBeforeNewline(a, nb, k);
      LinksNewline(rest, nb);
      PrependBoth(Links(a), Links(a + nb), Links(rest), Links(rest + nb), Links(nb[1..]), [Strip(a[..k + 4])]);
    } else {
      LinksAtNoMatchBeforeNewline(a, nb);
      LinksNewline(a[1..], nb);
    }
  }

  lemma PrependBoth(la: seq<string>, lab: seq<string>, lr: seq<string>, lrb: seq<string>, lb: seq<string>, m: seq<string>)
    requires la == m + lr && lab == m + lrb && lrb == lr + lb
    ensures lab == la + lb
  {
  }

  /** Both `a` and `a` followed by a newline start with the same match. */
  lemma LinksAtMatchBeforeNewline(a: string, nb: string, k: nat)
    requires nb != [] && nb[0] == '\n'
    requires |a| >= 2 && a[0] == '[' && a[1] == '[' && Close(a[2..]) == Some(k)
    ensures k + 4 <= |a|
    ensures Links(a) == [Strip(a[..k + 4])] + Links(a[k + 4..])
    ensures Links(a + nb) == [Strip(a[..k + 4])] + Links(a[k + 4..] + nb)
  {
    var s := a + nb;
    AppendSlices(a, nb, 2);
    AppendSlices(a, nb, k + 4);
    CloseNewline(a[2..], nb);
    LinkAtStartAs(s, k, a[..k + 4], a[k + 4..] + nb);
    LinkAtStart(a, k);
  }

  /** The first link of `s`, with its text and the remainder given by name. */
  lemma LinkAtStartAs(s: string, k: nat, x: string, y: string)
    requires |s| >= 2 && s[0] == '[' && s[1] == '[' && Close(s[2..]) == Some(k)
    requires k + 4 <= |s| && x == s[..k + 4] && y == s[k + 4..]
    ensures Links(s) == [Strip(x)] + Links(y)
  {
    LinkAtStart(s, k);
  }

  /** Neither `a` nor `a` followed by a newline starts with a match. */
  lemma LinksAtNoMatchBeforeNewline(a: string, nb: string)
    requires nb != [] && nb[0] == '\n'
    requires |a| >= 2 && a[0] == '[' && a[1] == '[' && Close(a[2..]).None?
    ensures Links(a) == Links(a[1..])
    ensures Links(a + nb) == Links(a[1..] + nb)
  {
    var s := a + nb;
    assert s[2..] == a[2..] + nb;
    assert s[1..] == a[1..] + nb;
    assert s[0] == '[' && s[1] == '[';
    CloseNewline(a[2..], nb);
    LinksSkipAs(s, a[1..] + nb);
    LinksSkipAs(a, a[1..]);
  }

  /** Slicing text followed by more text, at a point inside the first text. */
  lemma AppendSlices(a: string, b: string, n: nat)
    requires n <= |a|
    ensures (a + b)[..n] == a[..n] && (a + b)[n..] == a[n..] + b
  {
  }

  lemma LinksSkipAs(s: string, y: string)
    requires |s| >= 2 && s[0] == '[' && s[1] == '[' && Close(s[2..]).None? && y == s[1..]
    ensures Links(s) == Links(y)
  {
  }

  /** The links of a list of lines, line by line. */
  function LinksOfLines(lines: seq<string>): seq<string>
  {
    if lines == [] then [] else Links(lines[0]) + LinksOfLines(lines[1..])
  }

  lemma {:induction false} LinksOfLinesAppend(a: seq<string>, b: seq<string>)
    ensures LinksOfLines(a + b) == LinksOfLines(a) + LinksOfLines(b)
    decreases |a|
  {
    if a != [] {
      assert (a + b)[1..] == a[1..] + b;
      LinksOfLinesAppend(a[1..], b);
    } else {
      assert a + b == b;
    }
  }

  /** The links of lines joined by newlines are the links of the lines, in order. */
  lemma {:induction false} LinksOfJoinedLines(lines: seq<string>)
    ensures Links(Join(lines, '\n')) == LinksOfLines(lines)
    decreases |lines|
  {
    if |lines| == 1 {
      assert lines[1..] == [];
    } else if |lines| > 1 {
      LinksOfJoinedLines(lines[1..]);
      var nb := ['\n'] + Join(lines[1..], '\n');
      assert Join(lines, '\n') == lines[0] + nb;
      LinksNewline(lines[0], nb);
      assert nb[1..] == Join(lines[1..], '\n');
    }
  }

  /** The links of a text are those of its lines. */
  lemma LinksOfSplitLines(s: string)
    ensures LinksOfLines(Split(s, '\n')) == Links(s)
  {
    JoinSplit(s, '\n');
    LinksOfJoinedLines(Split(s, '\n'));
  }

  /** `## :<section>:`, the header line of a section. */
  function Header(section: string): string
  {
    "## :" + section + ":"
  }

  /** The index of the first occurrence of `x` (`list.index`). */
  function FirstIndex(lines: seq<string>, x: string): (i: nat)
    requires x in lines
    ensures i < |lines| && lines[i] == x
    ensures forall j :: 0 <= j < i ==> lines[j] != x
  {
    if lines[0] == x then 0 else FirstIndex(lines[1..], x) + 1
  }

  /** The lines after `_insert_into_section` puts `link` into the section `header` opens. */
  function SectionInserted(lines: seq<string>, header: string, link: string): seq<string>
  {
    if header in lines then
      var i := FirstIndex(lines, header);
      lines[..i + 1] + [link] + lines[i + 1..]
    else lines + ["", header, link]
  }

  /** Where the link line goes: right after the first occurrence of the header, or after a
      new blank line and header at the end; every earlier line keeps its place and order. */
  lemma SectionInsertedPlacement(lines: seq<string>, header: string, link: string)
    ensures var r := SectionInserted(lines, header, link);
      if header in lines then
        exists i :: 0 <= i < |lines| && lines[i] == header && (forall j :: 0 <= j < i ==> lines[j] != header) &&
          |r| == |lines| + 1 && r[i + 1] == link && r[..i + 1] == lines[..i + 1] && r[i + 2..] == lines[i + 1..]
      else
        r[..|lines|] == lines && r[|lines|..] == ["", header, link]
  {
    var r := SectionInserted(lines, header, link);
    if header in lines {
      var i := FirstIndex(lines, header);
      assert r[i + 2..] == lines[i + 1..];
    }
  }

  /** Inserting a link line adds that line's links to the text's and takes none away. */
  lemma SectionInsertedLinks(lines: seq<string>, header: string, link: string)
    requires '[' !in header
    ensures multiset(LinksOfLines(SectionInserted(lines, header, link))) ==
      multiset(LinksOfLines(lines)) + multiset(Links(link))
  {
    NoOpenNoLinks(header);
    NoOpenNoLinks("");
    if header in lines {
      var i := FirstIndex(lines, header);
      assert lines == lines[..i + 1] + lines[i + 1..];
      LinksOfLinesAppend(lines[..i + 1], lines[i + 1..]);
      LinksOfLinesAppend(lines[..i + 1] + [link], lines[i + 1..]);
      LinksOfLinesAppend(lines[..i + 1], [link]);
    } else {
      LinksOfLinesAppend(lines, ["", header, link]);
      assert ["", header, link][1..] == [header, link];
      assert [header, link][1..] == [link];
    }
  }

  /** `_insert_into_section`: look the header up and insert the link line after it, or
      append a blank line, the header and the link line. */
  method InsertIntoSection(lines: seq<string>, sectionName: string, linkText: string) returns (result: seq<string>)
    ensures result == SectionInserted(lines, Header(sectionName), linkText)
  {
    var header := Header(sectionName);
    var i := 0;
    while i < |lines| && lines[i] != header
      invariant 0 <= i <= |lines|
      invariant forall j :: 0 <= j < i ==> lines[j] != header
    {
      i := i + 1;
    }
    result := lines;
    var ix;
    if i < |lines| {
      assert FirstIndex(lines, header) == i by {
        FirstIndexIsFirst(lines, header, i);
      }
      ix := i + 1;
    } else {
      ix := |result| + 2;
      result := result + [""];
      result := result + [header];
    }
    result := result[..ix] + [linkText] + result[ix..];
  }

  lemma FirstIndexIsFirst(lines: seq<string>, x: string, i: nat)
    requires i < |lines| && lines[i] == x && forall j :: 0 <= j < i ==> lines[j] != x
    ensures FirstIndex(lines, x) == i
  {
    var f := FirstIndex(lines, x);
    assert !(f < i) && !(i < f);
  }

  /** The text `_update_link` writes: every `[[old]]` replaced by `[[new]]`. */
  function Renamed(text: string, oldKey: string, newKey: string): string
  {
    ReplaceAll(text, "[[" + oldKey + "]]", "[[" + newKey + "]]")
  }

  /** A note text seen as plain runs and links. */
  datatype Piece = Plain(text: string) | Link(key: string)

  /** Every plain run is one in which no link starts, and every link's key is clean. */
  predicate WellFormed(ps: seq<Piece>)
  {
    forall i :: 0 <= i < |ps| ==> (ps[i].Plain? ==> PlainRun(ps[i].text)) && (ps[i].Link? ==> CleanKey(ps[i].key))
  }

  function PieceText(p: Piece): string
  {
    if p.Link? then "[[" + p.key + "]]" else p.text
  }

  function Render(ps: seq<Piece>): string
  {
    if ps == [] then ""
    else PieceText(ps[0]) + Render(ps[1..])
  }

  function LinkKeys(ps: seq<Piece>): seq<string>
  {
    if ps == [] then []
    else (if ps[0].Link? then [ps[0].key] else []) + LinkKeys(ps[1..])
  }

  function RenameKey(k: string, oldKey: string, newKey: string): string
  {
    if k == oldKey then newKey else k
  }

  function RenamePieces(ps: seq<Piece>, oldKey: string, newKey: string): (qs: seq<Piece>)
    ensures |qs| == |ps|
  {
    if ps == [] then []
    else
      [if ps[0].Link? then Link(RenameKey(ps[0].key, oldKey, newKey)) else ps[0]]
        + RenamePieces(ps[1..], oldKey, newKey)
  }

  function RenameKeys(ks: seq<string>, oldKey: string, newKey: string): (rs: seq<string>)
    ensures |rs| == |ks| && forall i :: 0 <= i < |ks| ==> rs[i] == RenameKey(ks[i], oldKey, newKey)
  {
    if ks == [] then [] else [RenameKey(ks[0], oldKey, newKey)] + RenameKeys(ks[1..], oldKey, newKey)
  }

  /** The links of a well-formed text are the keys of its link pieces. */
  lemma {:induction false} LinksOfRender(ps: seq<Piece>)
    requires WellFormed(ps)
    ensures Links(Render(ps)) == LinkKeys(ps)
    decreases |ps|
  {
    if ps != [] {
      LinksOfRender(ps[1..]);
      match ps[0]
      case Plain(t) =>
        LinksAfterPlain(t, Render(ps[1..]));
      case Link(k) =>
        LinksOfMarker(k, Render(ps[1..]));
    }
  }

  /** Replacement skips text in which no match can start. */
  lemma {:induction false} ReplaceAllAfterPlain(x: string, y: string, pat: string, rep: string)
    requires |pat| >= 2 && pat[0] == '[' && pat[1] == '[' && PlainRun(x)
    ensures ReplaceAll(x + y, pat, rep) == x + ReplaceAll(y, pat, rep)
    decreases |x|
  {
    if x != [] {
      var s := x + y;
      assert s[0] == x[0] && s[1..] == x[1..] + y;
      PlainRunTail(x);
      ReplaceAllAfterPlain(x[1..], y, pat, rep);
      if |s| < |pat| {
        assert ReplaceAll(y, pat, rep) == y;
      } else {
        assert s[..|pat|][0] == x[0];
        assert x[0] == '[' ==> s[..|pat|][1] == x[1] && x[1] != '[';
        assert ReplaceAll(s, pat, rep) == [x[0]] + ReplaceAll(s[1..], pat, rep);
        assert x == [x[0]] + x[1..];
      }
    } else {
      assert x + y == y;
    }
  }

  /** `[[k]]` is replaced when k is the old key and kept otherwise. */
  lemma ReplaceAllLink(k: string, rest: string, oldKey: string, newKey: string)
    requires CleanKey(k) && CleanKey(oldKey)
    ensures ReplaceAll("[[" + k + "]]" + rest, "[[" + oldKey + "]]", "[[" + newKey + "]]") ==
      "[[" + RenameKey(k, oldKey, newKey) + "]]" + ReplaceAll(rest, "[[" + oldKey + "]]", "[[" + newKey + "]]")
  {
    var pat := "[[" + oldKey + "]]";
    var rep := "[[" + newKey + "]]";
    var s := "[[" + k + "]]" + rest;
    if k == oldKey {
      assert s[..|pat|] == pat;
      assert s[|pat|..] == rest;
    } else {
      var s2 := k + "]]";
      var s1 := "[" + (s2 + rest);
      assert s == "[" + s1;
      if |pat| <= |s| {
        MarkerMismatch(k, rest, oldKey);
      }
      ReplaceAllSkip('[', s1, pat, rep);
      if |pat| <= |s1| {
        assert s1[..|pat|] != pat by {
          assert s1[1] != '[';
          assert pat[1] == '[';
        }
      }
      ReplaceAllSkip('[', s2 + rest, pat, rep);
      assert '[' !in s2;
      NoBracketPlainRun(s2);
      ReplaceAllAfterPlain(s2, rest, pat, rep);
      MarkerRegrouped(k, ReplaceAll(rest, pat, rep));
    }
  }

  lemma MarkerRegrouped(k: string, r: string)
    ensures "[" + ("[" + ((k + "]]") + r)) == "[[" + k + "]]" + r
  {
  }

  /** Text that does not start with the pattern keeps its first character. */
  lemma ReplaceAllSkip(c: char, t: string, pat: string, rep: string)
    requires pat != [] && (|pat| <= |[c] + t| ==> ([c] + t)[..|pat|] != pat)
    ensures ReplaceAll([c] + t, pat, rep) == [c] + ReplaceAll(t, pat, rep)
  {
    var s := [c] + t;
    assert s[1..] == t;
    if |s| < |pat| {
      assert ReplaceAll(t, pat, rep) == t;
    }
  }

  /** The link `[[k]]` does not start with `[[old]]` for a different clean key. */
  lemma MarkerMismatch(k: string, rest: string, oldKey: string)
    requires CleanKey(k) && CleanKey(oldKey) && k != oldKey
    requires |oldKey| + 4 <= |k| + 4 + |rest|
    ensures ("[[" + k + "]]" + rest)[..|oldKey| + 4] != "[[" + oldKey + "]]"
  {
    var s := "[[" + k + "]]" + rest;
    var pat := "[[" + oldKey + "]]";
    var j;
    if |k| < |oldKey| {
      j := |k| + 2;
      assert s[j] == ']' && pat[j] == oldKey[|k|];
    } else if |k| > |oldKey| {
      j := |oldKey| + 2;
      assert s[j] == k[|oldKey|] && pat[j] == ']';
    } else {
      assert exists i :: 0 <= i < |k| && k[i] != oldKey[i];
      var i :| 0 <= i < |k| && k[i] != oldKey[i];
      j := i + 2;
      assert s[j] == k[i] && pat[j] == oldKey[i];
    }
    assert s[..|pat|][j] != pat[j];
  }

  /** `_update_link` on a well-formed text renames exactly the links to the old key. */
  lemma {:induction false} RenamedRender(ps: seq<Piece>, oldKey: string, newKey: string)
    requires WellFormed(ps) && CleanKey(oldKey)
    ensures Renamed(Render(ps), oldKey, newKey) == Render(RenamePieces(ps, oldKey, newKey))
    decreases |ps|
  {
    if ps != [] {
      RenamedRender(ps[1..], oldKey, newKey);
      assert RenamePieces(ps, oldKey, newKey)[1..] == RenamePieces(ps[1..], oldKey, newKey);
      match ps[0]
      case Plain(t) =>
        ReplaceAllAfterPlain(t, Render(ps[1..]), "[[" + oldKey + "]]", "[[" + newKey + "]]");
      case Link(k) =>
        ReplaceAllLink(k, Render(ps[1..]), oldKey, newKey);
    }
  }

  lemma {:induction false} LinkKeysRenamed(ps: seq<Piece>, oldKey: string, newKey: string)
    ensures LinkKeys(RenamePieces(ps, oldKey, newKey)) == RenameKeys(LinkKeys(ps), oldKey, newKey)
    decreases |ps|
  {
    if ps != [] {
      LinkKeysRenamed(ps[1..], oldKey, newKey);
      assert RenamePieces(ps, oldKey, newKey)[1..] == RenamePieces(ps[1..], oldKey, newKey);
      var rest := LinkKeys(ps[1..]);
      match ps[0]
      case Plain(t) =>
      case Link(k) =>
        assert RenameKeys([k] + rest, oldKey, newKey)[1..] == RenameKeys(rest, oldKey, newKey);
    }
  }

  lemma {:induction false} RenamePiecesWellFormed(ps: seq<Piece>, oldKey: string, newKey: string)
    requires WellFormed(ps) && CleanKey(newKey)
    ensures WellFormed(RenamePieces(ps, oldKey, newKey))
    decreases |ps|
  {
    if ps != [] {
      RenamePiecesWellFormed(ps[1..], oldKey, newKey);
      var qs := RenamePieces(ps, oldKey, newKey);
      assert qs[1..] == RenamePieces(ps[1..], oldKey, newKey);
      forall i | 0 <= i < |qs|
        ensures (qs[i].Plain? ==> PlainRun(qs[i].text)) && (qs[i].Link? ==> CleanKey(qs[i].key))
      {
        if i > 0 {
          assert qs[i] == qs[1..][i - 1];
        }
      }
    }
  }

  /** After `_update_link` every link to the old key names the new key, all other links
      are kept, in the same order, and the text is again well formed. */
  lemma UpdateLinkRenamesLinks(ps: seq<Piece>, oldKey: string, newKey: string)
    requires WellFormed(ps) && CleanKey(oldKey) && CleanKey(newKey)
    ensures Links(Renamed(Render(ps), oldKey, newKey)) == RenameKeys(Links(Render(ps)), oldKey, newKey)
    ensures WellFormed(RenamePieces(ps, oldKey, newKey))
  {
    RenamedRender(ps, oldKey, newKey);
    RenamePiecesWellFormed(ps, oldKey, newKey);
    LinksOfRender(ps);
    LinksOfRender(RenamePieces(ps, oldKey, newKey));
    LinkKeysRenamed(ps, oldKey, newKey);
  }
}
