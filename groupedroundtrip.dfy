/**
 * Why `parse_file` reads back what `serialize_notes` wrote: every block's
 * start tag is the next one the search finds, its section regex matches
 * exactly that block, and its end marker is the only one with its id after
 * the body starts.
 */
module GroupedRoundTrip {
  import opened Wrappers
  import opened Text
  import opened Notes
  import opened Paths
  import opened GroupedCodec
  import opened GroupedStore

  /** An id the start-marker regex reads back whole: non-empty, and no `<` or `>` in it. */
  predicate SafeId(id: string) {
    id != [] && '<' !in id && '>' !in id
  }

  /** No end tag anywhere in `s`. */
  predicate FreeOfEndTag(s: string) {
    forall k :: 0 <= k < |s| ==> !StartsAt(s, k, EndTag)
  }

  /** The notes whose serialized file parses back: safe ids, no end tag in a metadata block or a body, ids pairwise distinct. */
  predicate Framable(ns: seq<Note>, codec: YamlCodec) {
    && (forall i :: 0 <= i < |ns| ==> SafeId(ns[i].id))
    && (forall i :: 0 <= i < |ns| ==> FreeOfEndTag(ns[i].content) && FreeOfEndTag(MetaText(ns[i], codec)))
    && (forall i, j :: 0 <= i < j < |ns| ==> ns[i].id != ns[j].id)
  }

  /** A note as it comes back: body stripped, no file path attached. */
  function Restored(n: Note): Note {
    n.(content := Strip(n.content), filePath := None)
  }

  function RestoredAll(ns: seq<Note>): (r: seq<Note>)
    ensures |r| == |ns| && forall i :: 0 <= i < |ns| ==> r[i] == Restored(ns[i])
  {
    seq(|ns|, i requires 0 <= i < |ns| => Restored(ns[i]))
  }

  // ---------------------------------------------------------------- one block, piece by piece

  /** A pattern without a newline that occurs in `a + b`, where `b` starts with a newline, lies wholly in `a` or wholly in `b`. */
  lemma SplitAtNewline(a: string, b: string, j: nat, pat: string)
    requires StartsAt(a + b, j, pat) && |pat| >= 1 && '\n' !in pat && |b| >= 1 && b[0] == '\n'
    ensures (j + |pat| <= |a| && StartsAt(a, j, pat)) || (j > |a| && StartsAt(b, j - |a|, pat))
  {
    assert forall i :: j <= i < j + |pat| ==> (a + b)[i] == pat[i - j] != '\n';
    assert (a + b)[|a|] == '\n';
    if j < |a| {
      assert j + |pat| <= |a|;
      assert (a + b)[j..j + |pat|] == a[j..j + |pat|];
    } else {
      assert j != |a|;
      assert (a + b)[j..j + |pat|] == b[j - |a|..j - |a| + |pat|];
    }
  }

  /** The block as pieces that each start with a newline (all but the first). */
  lemma BlockPieces(n: Note, codec: YamlCodec, rest: string)
    ensures Block(n, codec) + rest
         == ("\n" + StartLine(n.id)) + ("\n---\n" + MetaText(n, codec)) + ("\n---\n" + n.content)
            + ("\n" + EndLine(n.id)) + ("\n" + rest)
  {
  }

  /** What an end tag's occurrence fixes: its `<` and the `E` of `END`. */
  lemma EndTagChars(q: string)
    ensures forall j: nat :: StartsAt(q, j, EndTag) ==> q[j] == '<' && q[j + 10] == 'E'
  {
    forall j: nat | StartsAt(q, j, EndTag) ensures q[j] == '<' && q[j + 10] == 'E' {
      assert q[j..j + 15][0] == q[j] && q[j..j + 15][10] == q[j + 10];
    }
  }

  /** The start line holds no end tag: its only `<` opens the start tag. */
  lemma NoEndTagInStartPiece(id: string)
    requires '<' !in id
    ensures forall j :: !StartsAt("\n" + StartLine(id), j, EndTag)
  {
    var q := "\n" + StartLine(id);
    forall i | 0 <= i < |q| && i != 1 ensures q[i] != '<' {
      if i < 18 {
        assert q[i] == ("\n" + StartTag)[i];
      } else if i < 18 + |id| {
        assert q[i] == id[i - 18];
      } else {
        assert q[i] == TagClose[i - 18 - |id|];
      }
    }
    assert q[11] == 'S';
    EndTagChars(q);
  }

  /** A separator followed by text free of end tags holds no end tag. */
  lemma NoEndTagInFramedPiece(y: string)
    requires FreeOfEndTag(y)
    ensures forall j :: !StartsAt("\n---\n" + y, j, EndTag)
  {
    var q := "\n---\n" + y;
    EndTagChars(q);
    forall j: nat ensures !StartsAt(q, j, EndTag) {
      if j >= 5 && j <= |q| {
        StartsAtSuffix(q, 5, j, EndTag);
        assert q[5..] == y;
      } else if j < 5 {
        assert q[j] == "\n---\n"[j];
      }
    }
  }

  /** The end line holds exactly one end tag, right after its newline. */
  lemma EndTagInEndPiece(id: string, j: nat)
    requires '<' !in id && StartsAt("\n" + EndLine(id), j, EndTag)
    ensures j == 1
  {
    var q := "\n" + EndLine(id);
    forall i | 0 <= i < |q| && i != 1 ensures q[i] != '<' {
      if i < 16 {
        assert q[i] == ("\n" + EndTag)[i];
      } else if i < 16 + |id| {
        assert q[i] == id[i - 16];
      } else {
        assert q[i] == TagClose[i - 16 - |id|];
      }
    }
    EndTagChars(q);
  }

  /** Where a block's own end tag sits: after the newline that ends its body. */
  function EndTagPos(n: Note, codec: YamlCodec): nat {
    33 + |n.id| + |MetaText(n, codec)| + |n.content|
  }

  /** In a block followed by `rest`, an end tag is the block's own or lies wholly in `rest`. */
  lemma EndTagInBlock(n: Note, codec: YamlCodec, rest: string, j: nat)
    requires SafeId(n.id) && FreeOfEndTag(MetaText(n, codec)) && FreeOfEndTag(n.content)
    requires StartsAt(Block(n, codec) + rest, j, EndTag)
    ensures |Block(n, codec)| == EndTagPos(n, codec) + 20 + |n.id|
    ensures j == EndTagPos(n, codec) || (j >= |Block(n, codec)| && StartsAt(rest, j - |Block(n, codec)|, EndTag))
  {
    var a0 := "\n" + StartLine(n.id);
    var a1 := "\n---\n" + MetaText(n, codec);
    var a2 := "\n---\n" + n.content;
    var a3 := "\n" + EndLine(n.id);
    var a4 := "\n" + rest;
    BlockPieces(n, codec, rest);
    NoEndTagInStartPiece(n.id);
    NoEndTagInFramedPiece(MetaText(n, codec));
    NoEndTagInFramedPiece(n.content);
    SplitAtNewline(a0 + a1 + a2 + a3, a4, j, EndTag);
    if j > |a0 + a1 + a2 + a3| {
      StartsAtSuffix(a4, 1, j - |a0 + a1 + a2 + a3|, EndTag);
      assert a4[1..] == rest;
    } else {
      SplitAtNewline(a0 + a1 + a2, a3, j, EndTag);
      if j > |a0 + a1 + a2| {
        EndTagInEndPiece(n.id, j - |a0 + a1 + a2|);
      } else {
        SplitAtNewline(a0 + a1, a2, j, EndTag);
        SplitAtNewline(a0, a1, j, EndTag);
      }
    }
  }

  /** A block's own end marker starts at the newline just before its end tag. */
  lemma OwnEndMarker(n: Note, codec: YamlCodec, rest: string)
    ensures EndTagPos(n, codec) >= 1 && StartsAt(Block(n, codec) + rest, EndTagPos(n, codec) - 1, EndMarker(n.id))
  {
    var a0 := "\n" + StartLine(n.id);
    var a1 := "\n---\n" + MetaText(n, codec);
    var a2 := "\n---\n" + n.content;
    var a3 := "\n" + EndLine(n.id);
    BlockPieces(n, codec, rest);
    var t := Block(n, codec) + rest;
    assert t == (a0 + a1 + a2) + (a3 + ("\n" + rest));
    StartsAtPrefix(a3, "\n" + rest, 0, EndMarker(n.id));
    StartsAtSuffix(t, |a0 + a1 + a2|, |a0 + a1 + a2|, EndMarker(n.id));
  }

  /** Whatever follows a block is empty or starts with a newline. */
  lemma BlocksStart(ns: seq<Note>, codec: YamlCodec)
    ensures Blocks(ns, codec) == [] || Blocks(ns, codec)[0] == '\n'
  {
    if ns != [] {
      assert Block(ns[0], codec)[0] == '\n';
    }
  }

  /** Two ids without `>`, each followed by the tag close at the same place, are the same id. */
  lemma TagIdsEqual(s: string, x: string, y: string)
    requires '>' !in x && '>' !in y
    requires |x + TagClose| <= |s| && s[..|x + TagClose|] == x + TagClose
    requires |y + TagClose| <= |s| && s[..|y + TagClose|] == y + TagClose
    ensures x == y
  {
    assert forall i :: 0 <= i < |y| + 3 ==> (y + TagClose)[i] != '>';
    assert forall i :: 0 <= i < |x| + 3 ==> (x + TagClose)[i] != '>';
    assert (x + TagClose)[|x| + 3] == '>' && (y + TagClose)[|y| + 3] == '>';
    assert s[|x| + 3] == '>' && s[|y| + 3] == '>';
    assert |x| == |y|;
    assert x == s[..|x|] == y;
  }

  /** The id an end marker carries, read from where the marker starts. */
  lemma EndMarkerId(t: string, k: nat, x: string)
    requires StartsAt(t, k, EndMarker(x))
    ensures k + 16 <= |t| && StartsAt(t, k + 1, EndTag)
    ensures |x + TagClose| <= |t[k + 16..]| && t[k + 16..][..|x + TagClose|] == x + TagClose
  {
    var u := t[k..k + |EndMarker(x)|];
    assert u == "\n" + EndTag + (x + TagClose) && |u| == 20 + |x|;
    assert u[1..16] == EndTag;
    forall i | 0 <= i < 15 ensures t[k + 1..k + 16][i] == u[1..16][i] {
      assert u[1..16][i] == u[1 + i];
    }
    assert t[k + 16..][..|x + TagClose|] == t[k + 16..k + 16 + |x + TagClose|];
  }

  /** An end marker inside the serialized blocks carries the id of one of the notes. */
  lemma {:induction false} EndMarkerOnlyOwn(ns: seq<Note>, codec: YamlCodec, x: string, k: nat)
    requires forall i :: 0 <= i < |ns| ==> SafeId(ns[i].id)
    requires forall i :: 0 <= i < |ns| ==> FreeOfEndTag(ns[i].content) && FreeOfEndTag(MetaText(ns[i], codec))
    requires '>' !in x && StartsAt(Blocks(ns, codec), k, EndMarker(x))
    ensures exists i :: 0 <= i < |ns| && ns[i].id == x
    decreases |ns|
  {
    var n := ns[0];
    var rest := Blocks(ns[1..], codec);
    var t := Block(n, codec) + rest;
    assert Blocks(ns, codec) == t;
    BlocksStart(ns[1..], codec);
    var j := MarkerWhere(n, codec, rest, x, k);
    if j < 0 {
      assert ns[0].id == x;
    } else {
      EndMarkerOnlyOwn(ns[1..], codec, x, j);
      var i :| 0 <= i < |ns[1..]| && ns[1..][i].id == x;
      assert ns[i + 1].id == x;
    }
  }

  /**
   * An end marker for `x` in a block followed by `rest` is the block's own,
   * with `x` its id, or lies in `rest`, at `j`.
   */
  lemma MarkerWhere(n: Note, codec: YamlCodec, rest: string, x: string, k: nat) returns (j: int)
    requires SafeId(n.id) && FreeOfEndTag(n.content) && FreeOfEndTag(MetaText(n, codec))
    requires rest == [] || rest[0] == '\n'
    requires '>' !in x && StartsAt(Block(n, codec) + rest, k, EndMarker(x))
    ensures j < 0 ==> n.id == x
    ensures j >= 0 ==> StartsAt(rest, j, EndMarker(x))
  {
    var t := Block(n, codec) + rest;
    EndMarkerId(t, k, x);
    EndTagInBlock(n, codec, rest, k + 1);
    if k + 1 == EndTagPos(n, codec) {
      OwnMarkerId(n, codec, rest, x, k);
      j := -1;
    } else {
      assert k >= |Block(n, codec)|;
      StartsAtSuffix(t, |Block(n, codec)|, k, EndMarker(x));
      assert t[|Block(n, codec)|..] == rest;
      j := k - |Block(n, codec)|;
    }
  }

  /** The end marker where a block's own stands names the block's id. */
  lemma OwnMarkerId(n: Note, codec: YamlCodec, rest: string, x: string, k: nat)
    requires SafeId(n.id) && '>' !in x
    requires k + 1 == EndTagPos(n, codec) && StartsAt(Block(n, codec) + rest, k, EndMarker(x))
    ensures n.id == x
  {
    var t := Block(n, codec) + rest;
    OwnEndMarker(n, codec, rest);
    EndMarkerId(t, k, x);
    EndMarkerId(t, k, n.id);
    TagIdsEqual(t[k + 16..], x, n.id);
  }

  // ---------------------------------------------------------------- one block, matched

  /** A text whose suffix from `i` is `a + b` holds `a` at `i` and `b` from `j`. */
  lemma DropAt(t: string, i: nat, j: nat, a: string, b: string)
    requires i <= |t| && t[i..] == a + b && j == i + |a|
    ensures j <= |t| && StartsAt(t, i, a) && t[j..] == b
  {
    assert t[i..j] == t[i..][..|a|];
    assert t[j..] == t[i..][|a|..];
  }

  /** String concatenation regroups. */
  lemma Assoc(a: string, b: string, c: string)
    ensures (a + b) + c == a + (b + c)
  {
  }

  /** A block followed by `rest`, associated to the right. */
  lemma BlockNested(n: Note, codec: YamlCodec, rest: string)
    ensures Block(n, codec) + rest
         == "\n" + (StartTag + (n.id + (TagClose + (Separator
            + (MetaText(n, codec) + (Separator + (n.content + (EndMarker(n.id) + ("\n" + rest)))))))))
  {
    var y, c, id := MetaText(n, codec), n.content, n.id;
    calc {
      Block(n, codec) + rest;
      (Opening(id) + y + Separator + c + Closing(id)) + rest;
      { Assoc(Opening(id) + y + Separator + c, Closing(id), rest); }
      (Opening(id) + y + Separator + c) + (EndMarker(id) + "\n" + rest);
      { Assoc(EndMarker(id), "\n", rest); }
      (Opening(id) + y + Separator + c) + (EndMarker(id) + ("\n" + rest));
      { Assoc(Opening(id) + y + Separator, c, EndMarker(id) + ("\n" + rest)); }
      (Opening(id) + y + Separator) + (c + (EndMarker(id) + ("\n" + rest)));
      { Assoc(Opening(id) + y, Separator, c + (EndMarker(id) + ("\n" + rest))); }
      (Opening(id) + y) + (Separator + (c + (EndMarker(id) + ("\n" + rest))));
      { Assoc(Opening(id), y, Separator + (c + (EndMarker(id) + ("\n" + rest)))); }
      Opening(id) + (y + (Separator + (c + (EndMarker(id) + ("\n" + rest)))));
    }
    var r5 := y + (Separator + (c + (EndMarker(id) + ("\n" + rest))));
    calc {
      Opening(id) + r5;
      ("\n" + (StartTag + id + TagClose) + Separator) + r5;
      { Assoc("\n" + (StartTag + id + TagClose), Separator, r5); }
      ("\n" + (StartTag + id + TagClose)) + (Separator + r5);
      { Assoc("\n", StartTag + id + TagClose, Separator + r5); }
      "\n" + ((StartTag + id + TagClose) + (Separator + r5));
      { Assoc(StartTag + id, TagClose, Separator + r5);
        Assoc(StartTag, id, TagClose + (Separator + r5)); }
      "\n" + (StartTag + (id + (TagClose + (Separator + r5))));
    }
  }

  /** A pattern found at `k` fixes the text's character at `k + i`. */
  lemma CharOf(t: string, k: nat, pat: string, i: nat)
    requires StartsAt(t, k, pat) && i < |pat|
    ensures t[k + i] == pat[i]
  {
    assert t[k..k + |pat|][i] == t[k + i];
  }

  /** The lazy id group ends at the tag close after the id: no earlier ` -->` starts within a safe id. */
  lemma IdCloseFound(t: string, s: nat, q: nat, id: string)
    requires SafeId(id) && StartsAt(t, s + |StartTag|, id)
    requires q == s + |StartTag| + |id| && StartsAt(t, q, TagClose)
    ensures s + |StartTag| <= q <= |t|
    ensures Find(t, TagClose, s + |StartTag| + 1) == Some(q)
    ensures t[s + |StartTag|..q] == id
  {
    var b := s + |StartTag|;
    forall i | b <= i < q + 3 ensures t[i] != '>' {
      if i < q {
        CharOf(t, b, id, i - b);
      } else {
        CharOf(t, q, TagClose, i - q);
      }
    }
    forall k: nat | b + 1 <= k < q ensures !StartsAt(t, k, TagClose) {
      if StartsAt(t, k, TagClose) {
        CharOf(t, k, TagClose, 3);
      }
    }
    FindIs(t, TagClose, b + 1, q);
  }

  /** In a block at `p` whose successors carry no end marker of its id, the block's own end marker is the only one from `p` on. */
  lemma BodyEndUnique(t: string, p: nat, n: Note, codec: YamlCodec, rest: string)
    requires p <= |t| && t[p..] == Block(n, codec) + rest
    requires SafeId(n.id) && FreeOfEndTag(MetaText(n, codec)) && FreeOfEndTag(n.content)
    requires rest == [] || rest[0] == '\n'
    requires forall k: nat :: !StartsAt(rest, k, EndMarker(n.id))
    ensures forall k: nat :: p <= k && StartsAt(t, k, EndMarker(n.id)) ==> k + 1 == p + EndTagPos(n, codec)
  {
    var b := Block(n, codec);
    forall k: nat | p <= k && StartsAt(t, k, EndMarker(n.id)) ensures k + 1 == p + EndTagPos(n, codec) {
      StartsAtSuffix(t, p, k, EndMarker(n.id));
      EndMarkerId(t[p..], k - p, n.id);
      EndTagInBlock(n, codec, rest, k - p + 1);
      if k - p + 1 != EndTagPos(n, codec) {
        EndTagChars(rest);
        assert k - p >= |b|;
        StartsAtSuffix(b + rest, |b|, k - p, EndMarker(n.id));
      }
    }
  }

  /** Under a lawful codec the metadata block written for `n` is what the opening regex needs, and loads back to `n`'s mapping. */
  lemma MetaTextShape(n: Note, codec: YamlCodec)
    requires Lawful(codec)
    ensures var y := MetaText(n, codec);
      && |y| >= 1 && !IsWs(y[0]) && (forall k :: 0 <= k < |y| ==> !StartsAt(y, k, "\n---"))
      && codec.load(y) == Mapping(MetaOf(n))
  {
    var d := codec.dump(MetaOf(n));
    assert WellDumped(d) && codec.load(Chomp(d)) == Mapping(MetaOf(n));
    ChompShape(d);
  }

  /** The slices `BodyStrips` compares, as pieces of the run from the newline at `lo`. */
  lemma BodyPieces(t: string, lo: nat, g: nat, m: nat, c: string, u: string)
    requires lo < g <= m <= |t| && AllWs(t[lo..g]) && t[lo] == '\n' && t[lo + 1..m] == c
    requires u == t[lo..m]
    ensures AllWs(u[0..g - lo]) && AllWs(u[0..1]) && u[g - lo..] == t[g..m] && u[1..] == c
  {
    assert u[0..g - lo] == t[lo..g];
  }

  /** The lazy body group, started after some whitespace of a run beginning with the newline before `c`, strips to `c` stripped. */
  lemma BodyStrips(t: string, lo: nat, g: nat, m: nat, c: string)
    requires lo < g <= m <= |t| && AllWs(t[lo..g]) && t[lo] == '\n' && t[lo + 1..m] == c
    ensures Strip(t[g..m]) == Strip(c)
  {
    var u := t[lo..m];
    BodyPieces(t, lo, g, m, c, u);
    StripSkipEither(u, 0, g - lo, 1);
  }

  /** What a separator at `a` fixes: a newline, a `---` and a newline. */
  lemma SeparatorAt(t: string, a: nat)
    requires StartsAt(t, a, Separator)
    ensures a + 5 <= |t| && t[a] == '\n' && t[a + 4] == '\n' && t[a..a + 4] == "\n---"
    ensures WsEnd(t, a) == a + 1 && StartsAt(t, a + 1, "---")
  {
    var u := t[a..a + 5];
    assert u == "\n---\n";
    assert t[a..a + 4] == u[..4] == "\n---";
    assert t[a + 1..a + 4] == u[1..4] == "---";
    assert t[a] == u[0] && t[a + 1] == u[1] && t[a + 4] == u[4];
    assert WsEnd(t, a + 1) == a + 1;
  }

  /** The id search of the section regex at a block's start tag `s`: it stops at the tag close `q` right after the id at `b`. */
  lemma IdSearch(t: string, s: nat, b: nat, q: nat, id: string)
    requires SafeId(id) && b == s + |StartTag| && q == b + |id|
    requires StartsAt(t, s, StartTag) && StartsAt(t, b, id) && StartsAt(t, q, TagClose)
    ensures TagClosedAt(t, s) && Find(t, TagClose, s + |StartTag| + 1).value == q
    ensures t[s + |StartTag|..q] == id
  {
    IdCloseFound(t, s, q, id);
  }

  /** The opening search after a block's start line ending at `a`: the blank run is the separator's newline and the metadata block is `y`, at `g`. */
  lemma OpeningSearch(t: string, a: nat, o: nat, g: nat, e: nat, y: string)
    requires |y| >= 1 && !IsWs(y[0]) && forall k :: 0 <= k < |y| ==> !StartsAt(y, k, "\n---")
    requires o == a + 4 && g == o + 1 && e == g + |y|
    requires StartsAt(t, a, Separator) && StartsAt(t, g, y) && StartsAt(t, e, Separator)
    ensures a <= |t| && OpeningAfter(t, a) && o == WsEnd(t, a) + 3
    ensures TryOpen(t, o, WsEnd(t, o)).Some? && TryOpen(t, o, WsEnd(t, o)).value == (g, e)
    ensures t[g..e] == y
  {
    SeparatorAt(t, a);
    SeparatorAt(t, e);
    CloserThenNewline(t, e);
    OpenAt(t, o, y);
  }

  /** The body search after a closer whose newline is at `lo`, when the end marker occurs after `lo` only where the content ends. */
  lemma BodyMatched(t: string, lo: nat, id: string, c: string) returns (g: nat)
    requires lo < |t| && t[lo] == '\n' && StartsAt(t, lo + 1, c) && StartsAt(t, lo + 1 + |c|, EndMarker(id))
    requires forall k: nat :: lo < k && StartsAt(t, k, EndMarker(id)) ==> k == lo + 1 + |c|
    ensures lo < g <= lo + 1 + |c| && AllWs(t[lo..g])
    ensures TryBody(t, lo, WsEnd(t, lo), EndMarker(id)).Some?
    ensures TryBody(t, lo, WsEnd(t, lo), EndMarker(id)).value == (g, lo + 1 + |c|)
  {
    assert WsEnd(t, lo) > lo;
    WsEndAllWs(t, lo);
    g := TryBodyUnique(t, lo, WsEnd(t, lo), EndMarker(id), lo + 1 + |c|);
  }

  /** The body search after the separator at `e` that ends a metadata block, when the end marker after it occurs only where the content `c` ends, at `mk`. */
  lemma TailSearch(t: string, e: nat, j: nat, mk: nat, id: string, c: string) returns (g3: nat)
    requires j == e + 5 && mk == j + |c|
    requires StartsAt(t, e, Separator) && StartsAt(t, j, c) && StartsAt(t, mk, EndMarker(id))
    requires forall k: nat :: e < k && StartsAt(t, k, EndMarker(id)) ==> k == mk
    ensures e + 4 <= |t| && TryBody(t, e + 4, WsEnd(t, e + 4), EndMarker(id)).Some?
    ensures TryBody(t, e + 4, WsEnd(t, e + 4), EndMarker(id)).value == (g3, mk)
    ensures e + 4 < g3 <= mk <= |t| && Strip(t[g3..mk]) == Strip(c)
    ensures mk + |EndMarker(id)| == mk + 20 + |id|
  {
    SeparatorAt(t, e);
    var lo := e + 4;
    g3 := BodyMatched(t, lo, id, c);
    BodyStrips(t, lo, g3, mk, c);
  }

  // ---------------------------------------------------------------- one block, in the scan

  /** The start-tag search from the newline before a start tag finds that tag. */
  lemma FindStartAfterNewline(t: string, p: nat, s: nat)
    requires s == p + 1 && p < |t| && t[p] == '\n' && StartsAt(t, s, StartTag)
    ensures Find(t, StartTag, p) == Some(s)
  {
    if StartsAt(t, p, StartTag) {
      CharOf(t, p, StartTag, 0);
    }
    FindIs(t, StartTag, p, s);
  }

  /** The scan from a newline goes on as from the next position. */
  lemma SectionsSkip(t: string, j: nat)
    requires j < |t| && t[j] == '\n'
    ensures Sections(t, j) == Sections(t, j + 1)
  {
    FindSkip(t, j);
  }

  /** The start-tag search skips a newline. */
  lemma FindSkip(t: string, j: nat)
    requires j < |t| && t[j] == '\n'
    ensures Find(t, StartTag, j) == Find(t, StartTag, j + 1)
  {
    if StartsAt(t, j, StartTag) {
      CharOf(t, j, StartTag, 0);
    }
  }

  /** The scan at a start tag whose section matches takes that section and goes on after it. */
  lemma TagSection(t: string, s: nat, sec: Section, end: nat)
    requires s <= |t| && SectionAt(t, s).Some? && SectionAt(t, s).value == (sec, end)
    ensures SectionsAtTag(t, s) == [sec] + Sections(t, end)
  {
  }

  // ---------------------------------------------------------------- one block, laid out by position

  /**
   * Where each part of a block lies when its start tag is at `s`: the id
   * at `b`, the tag close at `q`, the opening separator at `a`, the
   * metadata block at `g`, the closing separator at `e`, the content at
   * `j`, the end marker at `mk`, and the newline after it at `end`.
   */
  predicate LaidOut(t: string, s: nat, b: nat, q: nat, a: nat, g: nat, e: nat, j: nat, mk: nat, end: nat,
                    id: string, y: string, c: string) {
    && b == s + |StartTag| && q == b + |id| && a == q + |TagClose| && g == a + |Separator|
    && e == g + |y| && j == e + |Separator| && mk == j + |c| && end == mk + |EndMarker(id)|
    && StartsAt(t, s, StartTag) && StartsAt(t, b, id) && StartsAt(t, q, TagClose)
    && StartsAt(t, a, Separator) && StartsAt(t, g, y) && StartsAt(t, e, Separator) && StartsAt(t, j, c)
    && StartsAt(t, mk, EndMarker(id)) && end < |t| && t[end] == '\n'
  }

  /**
   * Where each part of a block lies in a text that holds it at `p`: the
   * start tag at `s`, the id at `b`, the tag close at `q`, the opening
   * separator at `a`, the metadata block at `g`, the closing separator at
   * `e`, the content at `j`, the end marker at `mk` and the newline after
   * it at `end`.
   */
  lemma BlockLayout(t: string, p: nat, id: string, y: string, c: string, rest: string)
    returns (s: nat, b: nat, q: nat, a: nat, g: nat, e: nat, j: nat, mk: nat, end: nat)
    requires p <= |t|
    requires t[p..] == "\n" + (StartTag + (id + (TagClose + (Separator + (y + (Separator + (c + (EndMarker(id) + ("\n" + rest)))))))))
    ensures s == p + 1 && t[p] == '\n' && LaidOut(t, s, b, q, a, g, e, j, mk, end, id, y, c)
    ensures end + 1 <= |t| && t[end + 1..] == rest
  {
    s, b, q, a, g := HeadLayout(t, p, id, y + (Separator + (c + (EndMarker(id) + ("\n" + rest)))));
    e, j, mk, end := TailLayout(t, g, id, y, c, rest);
  }

  /** The start line and opening separator of a block at `p`, and where its metadata block starts. */
  lemma HeadLayout(t: string, p: nat, id: string, r5: string) returns (s: nat, b: nat, q: nat, a: nat, g: nat)
    requires p <= |t| && t[p..] == "\n" + (StartTag + (id + (TagClose + (Separator + r5))))
    ensures s == p + 1 && b == s + |StartTag| && q == b + |id| && a == q + |TagClose| && g == a + |Separator|
    ensures t[p] == '\n' && StartsAt(t, s, StartTag) && StartsAt(t, b, id) && StartsAt(t, q, TagClose)
    ensures StartsAt(t, a, Separator) && g <= |t| && t[g..] == r5
  {
    var r4 := Separator + r5;
    var r3 := TagClose + r4;
    var r2 := id + r3;
    var r1 := StartTag + r2;
    s := p + 1;
    b := s + |StartTag|;
    q := b + |id|;
    a := q + |TagClose|;
    g := a + |Separator|;
    DropAt(t, p, s, "\n", r1);
    DropAt(t, s, b, StartTag, r2);
    DropAt(t, b, q, id, r3);
    DropAt(t, q, a, TagClose, r4);
    DropAt(t, a, g, Separator, r5);
    CharOf(t, p, "\n", 0);
  }

  /** The metadata block at `g`, the closing separator, the content, the end marker and the newline after it. */
  lemma TailLayout(t: string, g: nat, id: string, y: string, c: string, rest: string) returns (e: nat, j: nat, mk: nat, end: nat)
    requires g <= |t| && t[g..] == y + (Separator + (c + (EndMarker(id) + ("\n" + rest))))
    ensures e == g + |y| && j == e + |Separator| && mk == j + |c| && end == mk + |EndMarker(id)|
    ensures StartsAt(t, g, y) && StartsAt(t, e, Separator) && StartsAt(t, j, c) && StartsAt(t, mk, EndMarker(id))
    ensures end < |t| && t[end] == '\n' && t[end + 1..] == rest
  {
    var r9 := "\n" + rest;
    var r8 := EndMarker(id) + r9;
    var r7 := c + r8;
    var r6 := Separator + r7;
    e := g + |y|;
    j := e + |Separator|;
    mk := j + |c|;
    end := mk + |EndMarker(id)|;
    DropAt(t, g, e, y, r6);
    DropAt(t, e, j, Separator, r7);
    DropAt(t, j, mk, c, r8);
    DropAt(t, mk, end, EndMarker(id), r9);
    DropAt(t, end, end + 1, "\n", rest);
    CharOf(t, end, "\n", 0);
  }

  /**
   * The section regex tried at the start tag `s` of a block laid out as
   * `BlockLayout` says, whose end marker is the only one of its id after
   * `s`: it matches that block alone, with its id and metadata block, a
   * body that strips to the content, and an end at the end marker's end.
   */
  lemma BlockSection(t: string, s: nat, b: nat, q: nat, a: nat, g: nat, e: nat, j: nat, mk: nat, end: nat,
                     id: string, y: string, c: string) returns (body: string)
    requires SafeId(id) && |y| >= 1 && !IsWs(y[0]) && forall k :: 0 <= k < |y| ==> !StartsAt(y, k, "\n---")
    requires LaidOut(t, s, b, q, a, g, e, j, mk, end, id, y, c)
    requires forall k: nat :: s < k && StartsAt(t, k, EndMarker(id)) ==> k == mk
    ensures SectionAt(t, s) == Some((Section(id, y, body), end))
    ensures Strip(body) == Strip(c)
  {
    IdSearch(t, s, b, q, id);
    var o := a + 4;
    OpeningSearch(t, a, o, g, e, y);
    var g3 := TailSearch(t, e, j, mk, id, c);
    body := t[g3..mk];
    SectionChain(t, s, q, id, a, o, g, e, g3, mk, y, body, end);
  }

  /** The scan from the newline before a start tag whose section ends just before a newline. */
  lemma ScanBlock(t: string, p: nat, s: nat, sec: Section, end: nat)
    requires s == p + 1 && p < |t| && t[p] == '\n' && StartsAt(t, s, StartTag)
    requires SectionAt(t, s) == Some((sec, end))
    requires end < |t| && t[end] == '\n'
    ensures Sections(t, p) == [sec] + Sections(t, end + 1)
  {
    FindStartAfterNewline(t, p, s);
    TagSection(t, s, sec, end);
    SectionsSkip(t, end);
  }

  /** The end marker of a block at `p` is the only one of its id after the block's start tag `s`. */
  lemma BlockUnique(t: string, p: nat, s: nat, mk: nat, n: Note, codec: YamlCodec, rest: string)
    requires p <= |t| && t[p..] == Block(n, codec) + rest
    requires SafeId(n.id) && FreeOfEndTag(MetaText(n, codec)) && FreeOfEndTag(n.content)
    requires rest == [] || rest[0] == '\n'
    requires forall k: nat :: !StartsAt(rest, k, EndMarker(n.id))
    requires s == p + 1 && mk + 1 == p + EndTagPos(n, codec)
    ensures forall k: nat :: s < k && StartsAt(t, k, EndMarker(n.id)) ==> k == mk
  {
    BodyEndUnique(t, p, n, codec, rest);
  }

  /** The section regex at the start tag of a block at `p`, when what follows carries no end marker of its id. */
  lemma BlockMatch(t: string, p: nat, n: Note, codec: YamlCodec, rest: string) returns (body: string, end: nat)
    requires Lawful(codec)
    requires p <= |t| && t[p..] == Block(n, codec) + rest
    requires SafeId(n.id) && FreeOfEndTag(MetaText(n, codec)) && FreeOfEndTag(n.content)
    requires rest == [] || rest[0] == '\n'
    requires forall k: nat :: !StartsAt(rest, k, EndMarker(n.id))
    ensures p < |t| && t[p] == '\n' && StartsAt(t, p + 1, StartTag)
    ensures p + 1 <= |t| && SectionAt(t, p + 1) == Some((Section(n.id, MetaText(n, codec), body), end))
    ensures end < |t| && t[end] == '\n' && end + 1 == p + |Block(n, codec)| && t[end + 1..] == rest
    ensures Strip(body) == Strip(n.content)
  {
    var id, y, c := n.id, MetaText(n, codec), n.content;
    BlockNested(n, codec, rest);
    var s, b, q, a, g, e, j, mk;
    s, b, q, a, g, e, j, mk, end := BlockLayout(t, p, id, y, c, rest);
    BlockUnique(t, p, s, mk, n, codec, rest);
    MetaTextShape(n, codec);
    body := BlockSection(t, s, b, q, a, g, e, j, mk, end, id, y, c);
    BlockLength(n, codec);
  }

  /**
   * The scan from a block at `p`, when what follows it carries no end
   * marker of its id: the block's section, then the scan after the block.
   */
  lemma ReadBlock(t: string, p: nat, n: Note, codec: YamlCodec, rest: string) returns (body: string, next: nat)
    requires Lawful(codec)
    requires p <= |t| && t[p..] == Block(n, codec) + rest
    requires SafeId(n.id) && FreeOfEndTag(MetaText(n, codec)) && FreeOfEndTag(n.content)
    requires rest == [] || rest[0] == '\n'
    requires forall k: nat :: !StartsAt(rest, k, EndMarker(n.id))
    ensures next == p + |Block(n, codec)| && next <= |t| && t[next..] == rest
    ensures Sections(t, p) == [Section(n.id, MetaText(n, codec), body)] + Sections(t, next)
    ensures Strip(body) == Strip(n.content)
  {
    var end;
    body, end := BlockMatch(t, p, n, codec, rest);
    ScanBlock(t, p, p + 1, Section(n.id, MetaText(n, codec), body), end);
    next := end + 1;
  }

  /** A block's length, piece by piece. */
  lemma BlockLength(n: Note, codec: YamlCodec)
    ensures |Block(n, codec)| == 1 + |StartTag| + |n.id| + |TagClose| + |Separator| + |MetaText(n, codec)|
                                 + |Separator| + |n.content| + |EndMarker(n.id)| + 1
  {
  }

  // ---------------------------------------------------------------- the whole file

  /** Framable notes stay framable without the first, which is safe to frame itself. */
  lemma FramableTail(ns: seq<Note>, codec: YamlCodec)
    requires ns != [] && Framable(ns, codec)
    ensures Framable(ns[1..], codec)
    ensures SafeId(ns[0].id) && FreeOfEndTag(ns[0].content) && FreeOfEndTag(MetaText(ns[0], codec))
  {
    var tl := ns[1..];
    forall i, j | 0 <= i < j < |tl| ensures tl[i].id != tl[j].id {
      assert tl[i] == ns[i + 1] && tl[j] == ns[j + 1];
    }
  }

  /** No block after the first carries an end marker with the first note's id. */
  lemma NoLaterMarker(ns: seq<Note>, codec: YamlCodec)
    requires ns != [] && Framable(ns, codec)
    ensures forall k: nat :: !StartsAt(Blocks(ns[1..], codec), k, EndMarker(ns[0].id))
  {
    FramableTail(ns, codec);
    forall k: nat ensures !StartsAt(Blocks(ns[1..], codec), k, EndMarker(ns[0].id)) {
      if StartsAt(Blocks(ns[1..], codec), k, EndMarker(ns[0].id)) {
        EndMarkerOnlyOwn(ns[1..], codec, ns[0].id, k);
        assert false;
      }
    }
  }

  /** One section per note, in order: its id, its metadata block, and a body stripping to its content. */
  predicate ReadsBack(secs: seq<Section>, ns: seq<Note>, codec: YamlCodec) {
    && |secs| == |ns|
    && forall i :: 0 <= i < |ns| ==>
         secs[i].id == ns[i].id && secs[i].front == MetaText(ns[i], codec) && Strip(secs[i].body) == Strip(ns[i].content)
  }

  /** The scan from the end of the text finds nothing. */
  lemma ScanAtEnd(t: string)
    ensures Sections(t, |t|) == []
  {
  }

  /** The scan over serialized blocks that start at `p` reads one section per note. */
  lemma {:induction false} ReadBlocks(t: string, p: nat, ns: seq<Note>, codec: YamlCodec) returns (secs: seq<Section>)
    requires Lawful(codec) && Framable(ns, codec)
    requires p <= |t| && t[p..] == Blocks(ns, codec)
    ensures Sections(t, p) == secs && ReadsBack(secs, ns, codec)
    decreases |ns|
  {
    if ns == [] {
      ScanAtEnd(t);
      secs := [];
    } else {
      var rest := Blocks(ns[1..], codec);
      FramableTail(ns, codec);
      BlocksStart(ns[1..], codec);
      NoLaterMarker(ns, codec);
      var body, next := ReadBlock(t, p, ns[0], codec, rest);
      var more := ReadBlocks(t, next, ns[1..], codec);
      secs := [Section(ns[0].id, MetaText(ns[0], codec), body)] + more;
      ReadsBackCons(secs, ns, codec);
    }
  }

  /** A section matching the first note, followed by sections that read back the rest, reads back all. */
  lemma ReadsBackCons(secs: seq<Section>, ns: seq<Note>, codec: YamlCodec)
    requires secs != [] && ns != [] && ReadsBack(secs[1..], ns[1..], codec)
    requires secs[0].id == ns[0].id && secs[0].front == MetaText(ns[0], codec)
    requires Strip(secs[0].body) == Strip(ns[0].content)
    ensures ReadsBack(secs, ns, codec)
  {
    forall i | 0 < i < |ns|
      ensures secs[i].id == ns[i].id && secs[i].front == MetaText(ns[i], codec) && Strip(secs[i].body) == Strip(ns[i].content)
    {
      assert secs[i] == secs[1..][i - 1] && ns[i] == ns[1..][i - 1];
    }
  }

  /** The search for a start tag skips a stretch without `<`. */
  lemma {:induction false} FindAcross(t: string, i: nat, h: nat)
    requires i <= h <= |t| && forall k :: i <= k < h ==> t[k] != '<'
    ensures Find(t, StartTag, i) == Find(t, StartTag, h)
    decreases h - i
  {
    if i < h {
      if StartsAt(t, i, StartTag) {
        CharOf(t, i, StartTag, 0);
      }
      FindAcross(t, i + 1, h);
    }
  }

  /** The header holds no `<` when the generation time holds none. */
  lemma HeaderFree(ts: string, count: nat)
    requires '<' !in ts
    ensures '<' !in Header(ts, count)
  {
    var d := Decimal(count);
    assert '<' !in d by {
      forall i | 0 <= i < |d| ensures d[i] != '<' {
        assert IsDigit(d[i]);
      }
    }
  }

  /** The scan of a serialized file starts at the first block. */
  lemma SkipHeader(ns: seq<Note>, codec: YamlCodec, ts: string)
    requires '<' !in ts
    ensures var t := SerializedNotes(ns, codec, ts);
      |Header(ts, |ns|)| <= |t| && t[|Header(ts, |ns|)|..] == Blocks(ns, codec)
      && Sections(t, 0) == Sections(t, |Header(ts, |ns|)|)
  {
    var t := SerializedNotes(ns, codec, ts);
    var hd := Header(ts, |ns|);
    HeaderFree(ts, |ns|);
    assert t[|hd|..] == Blocks(ns, codec);
    forall k | 0 <= k < |hd| ensures t[k] != '<' {
      assert t[k] == hd[k];
    }
    FindAcross(t, 0, |hd|);
  }

  /** Each section with a dumped mapping gives its note back, body stripped and without a path. */
  lemma {:induction false} NotesOfReadsBack(secs: seq<Section>, ns: seq<Note>, codec: YamlCodec, now: string)
    requires Lawful(codec) && ReadsBack(secs, ns, codec)
    ensures NotesOf(secs, codec, now) == Success(RestoredAll(ns))
    decreases |ns|
  {
    if ns != [] {
      FirstReadBack(secs, ns, codec, now);
      NotesOfReadsBack(secs[1..], ns[1..], codec, now);
    }
  }

  /** The first section reads back as the first note, restored, and the rest read back the rest. */
  lemma FirstReadBack(secs: seq<Section>, ns: seq<Note>, codec: YamlCodec, now: string)
    requires Lawful(codec) && ns != [] && ReadsBack(secs, ns, codec)
    ensures ReadsBack(secs[1..], ns[1..], codec)
    ensures NotesOf(secs, codec, now) == Prepend([Restored(ns[0])], NotesOf(secs[1..], codec, now))
    ensures RestoredAll(ns) == [Restored(ns[0])] + RestoredAll(ns[1..])
  {
    ReadsBackTail(secs, ns, codec);
    SectionReadBack(secs, ns[0], codec, now);
    RestoredAllStep(ns);
  }

  /** A section written for `n` reads back as `n`, restored, followed by what the rest reads back. */
  lemma SectionReadBack(secs: seq<Section>, n: Note, codec: YamlCodec, now: string)
    requires Lawful(codec) && secs != []
    requires secs[0].id == n.id && secs[0].front == MetaText(n, codec) && Strip(secs[0].body) == Strip(n.content)
    ensures NotesOf(secs, codec, now) == Prepend([Restored(n)], NotesOf(secs[1..], codec, now))
  {
    MetaTextShape(n, codec);
    MetaRoundTrip(n, secs[0].id, Strip(secs[0].body), now, None);
  }

  /** Restoring a list restores its head and then its tail. */
  lemma RestoredAllStep(ns: seq<Note>)
    requires ns != []
    ensures RestoredAll(ns) == [Restored(ns[0])] + RestoredAll(ns[1..])
  {
  }

  /** Reading back holds for the tails. */
  lemma ReadsBackTail(secs: seq<Section>, ns: seq<Note>, codec: YamlCodec)
    requires ns != [] && ReadsBack(secs, ns, codec)
    ensures ReadsBack(secs[1..], ns[1..], codec)
  {
    forall i | 0 <= i < |ns| - 1
      ensures secs[1..][i].id == ns[1..][i].id && secs[1..][i].front == MetaText(ns[1..][i], codec)
      ensures Strip(secs[1..][i].body) == Strip(ns[1..][i].content)
    {
      assert secs[1..][i] == secs[i + 1] && ns[1..][i] == ns[i + 1];
    }
  }

  /**
   * `parse_file` reads back what `serialize_notes` wrote: the same notes in
   * the same order, every metadata field equal, each body stripped, no file
   * path. This holds for notes whose ids are distinct and hold no `<` or
   * `>`, whose bodies and metadata blocks hold no end tag, and a generation
   * time without `<`.
   */
  lemma ParseSerializeNotes(ns: seq<Note>, codec: YamlCodec, ts: string, now: string)
    requires Lawful(codec) && Framable(ns, codec) && '<' !in ts
    ensures NotesOf(Sections(SerializedNotes(ns, codec, ts), 0), codec, now) == Success(RestoredAll(ns))
  {
    var t := SerializedNotes(ns, codec, ts);
    SkipHeader(ns, codec, ts);
    var secs := ReadBlocks(t, |Header(ts, |ns|)|, ns, codec);
    NotesOfReadsBack(secs, ns, codec, now);
  }

  /**
   * The month file `create_note` writes reads back as the notes it already
   * held, then the stamped note, each restored.
   */
  lemma CreatedFileReadsBack(ns: seq<Note>, note: Note, now: string, ts: string, codec: YamlCodec, parseNow: string)
    requires Lawful(codec) && '<' !in ts && Framable(ns + [Stamped(note, now)], codec)
    ensures NotesOf(Sections(SerializedNotes(ns + [Stamped(note, now)], codec, ts), 0), codec, parseNow)
         == Success(RestoredAll(ns) + [Restored(Stamped(note, now))])
  {
    var stored := Stamped(note, now);
    ParseSerializeNotes(ns + [stored], codec, ts, parseNow);
    assert RestoredAll(ns + [stored]) == RestoredAll(ns) + [Restored(stored)];
  }
}
