/**
 * The single-note record codec: a metadata block between `---` lines, a
 * blank line, then the markdown body. Parsing matches
 * `^---\s*\n(.*?)\n---\s*\n(.*)$` (dot matches newline) and falls back to
 * treating the whole text as the body when there is no such block.
 */
module MarkdownCodec {
  import opened Wrappers
  import opened Text
  import opened Notes
  import opened Paths

  datatype ParseError = InvalidYaml(path: string) | NotAMapping(path: string)

  /** `MarkdownParser.serialize`. */
  function Serialize(n: Note, codec: YamlCodec): string {
    "---\n" + codec.dump(MetaOf(n)) + "---\n\n" + n.content
  }

  /** The front-matter regex: the metadata text and the raw body, when it matches. */
  function MatchFrontMatter(t: string): Option<(string, string)> {
    if !FrontOpens(t) then None
    else
      var block := TryOpen(t, 3, WsEnd(t, 3)).value;
      Some((t[block.0..block.1], RawBody(t, block.1)))
  }

  /** What the regex's `(.*)` captures after the closer at `e`: everything after the last newline of the run that follows it. */
  function RawBody(t: string, e: nat): string
    requires CloserAt(t, e)
  {
    t[LastNewline(t, e + 4, WsEnd(t, e + 4)).value + 1..]
  }

  /** The text opens with `---` and a metadata block up to its closer. */
  predicate FrontOpens(t: string) {
    StartsAt(t, 0, "---") && TryOpen(t, 3, WsEnd(t, 3)).Some?
  }

  /** The note a file without a metadata block becomes. */
  function PlainNote(path: string, text: string, now: string): Note {
    Note(Stem(path), "default", Stem(path), text, now, now, [], map[], [], Some(path))
  }

  /**
   * `MarkdownParser.parse` applied to the text already read from `path`;
   * `now` stands for `datetime.now().isoformat()`.
   */
  function Parse(path: string, text: string, codec: YamlCodec, now: string): (r: Result<Note, ParseError>)
    ensures r.Success? ==> r.value.filePath == Some(path)
    ensures MatchFrontMatter(text).None? ==> r == Success(PlainNote(path, text, now))
    ensures r == Failure(InvalidYaml(path)) <==>
      MatchFrontMatter(text).Some? && codec.load(MatchFrontMatter(text).value.0).YamlError?
    ensures r == Failure(NotAMapping(path)) <==>
      MatchFrontMatter(text).Some? && codec.load(MatchFrontMatter(text).value.0).NotMapping?
  {
    match MatchFrontMatter(text)
    case None => Success(PlainNote(path, text, now))
    case Some((front, body)) =>
      match codec.load(front)
      case YamlError => Failure(InvalidYaml(path))
      case NotMapping => Failure(NotAMapping(path))
      case Mapping(md) => Success(NoteFromMeta(md, Stem(path), Strip(body), now, Some(path)))
  }

  /**
   * A front-matter block that loads to a mapping: each key present in the
   * mapping gives its value, each absent key its default (the file's stem
   * for the id, `default`, `Untitled`, now for both timestamps, nothing for
   * tags, properties and links), the stripped body is the content, and the
   * note carries its path.
   */
  lemma ParseMapping(path: string, text: string, codec: YamlCodec, now: string, front: string, body: string, md: Metadata)
    requires MatchFrontMatter(text) == Some((front, body)) && codec.load(front) == Mapping(md)
    ensures Parse(path, text, codec, now).Success?
    ensures var n := Parse(path, text, codec, now).value;
      && (md.id.Some? ==> n.id == md.id.value) && (md.id.None? ==> n.id == Stem(path))
      && (md.moduleName.Some? ==> n.moduleName == md.moduleName.value) && (md.moduleName.None? ==> n.moduleName == "default")
      && (md.title.Some? ==> n.title == md.title.value) && (md.title.None? ==> n.title == "Untitled")
      && (md.created.Some? ==> n.created == md.created.value) && (md.created.None? ==> n.created == now)
      && (md.modified.Some? ==> n.modified == md.modified.value) && (md.modified.None? ==> n.modified == now)
      && (md.tags.Some? ==> n.tags == md.tags.value) && (md.tags.None? ==> n.tags == [])
      && (md.properties.Some? ==> n.properties == md.properties.value) && (md.properties.None? ==> n.properties == map[])
      && (md.links.Some? ==> n.links == md.links.value) && (md.links.None? ==> n.links == [])
      && n.content == Strip(body) && n.filePath == Some(path)
  {
  }

  /** A text that does not begin with `---` is a plain note: the whole text is its body, its stem its id and title. */
  lemma PlainFileFallback(path: string, text: string, codec: YamlCodec, now: string)
    requires !StartsAt(text, 0, "---")
    ensures Parse(path, text, codec, now) == Success(PlainNote(path, text, now))
    ensures var n := Parse(path, text, codec, now).value;
      n.id == n.title == Stem(path) && n.moduleName == "default" && n.content == text
  {
  }

  /** The shape of a serialized note: header line, metadata block without its last newline, closer, body. */
  lemma SerializeShape(n: Note, codec: YamlCodec)
    requires WellDumped(codec.dump(MetaOf(n)))
    ensures var y := Chomp(codec.dump(MetaOf(n)));
      Serialize(n, codec) == "---\n" + y + "\n---\n\n" + n.content
  {
    var d := codec.dump(MetaOf(n));
    assert d == Chomp(d) + "\n";
  }

  /** The positions a serialized note's text is made of. */
  lemma ShapeFacts(t: string, y: string, c: string)
    requires t == "---\n" + y + "\n---\n\n" + c
    ensures |t| == 10 + |y| + |c|
    ensures t[..3] == "---" && t[3] == '\n' && t[4..4 + |y|] == y
    ensures t[4 + |y|..8 + |y|] == "\n---" && t[8 + |y|] == '\n' && t[9 + |y|] == '\n'
    ensures t[10 + |y|..] == c
  {
  }

  /** The whitespace run after a closer ends at a newline no earlier than the blank line. */
  lemma BlankAfterCloser(t: string, e: nat)
    requires e + 6 <= |t| && t[e..e + 4] == "\n---" && t[e + 4] == '\n' && t[e + 5] == '\n'
    ensures CloserAt(t, e)
    ensures var nl := LastNewline(t, e + 4, WsEnd(t, e + 4)).value;
      e + 6 <= nl + 1 && AllWs(t[e + 4..nl + 1])
  {
    CloserThenNewline(t, e);
    var w := WsEnd(t, e + 4);
    assert w > e + 5 by {
      assert WsEnd(t, e + 4) == WsEnd(t, e + 5);
    }
    var nl := LastNewline(t, e + 4, w).value;
    if nl < e + 5 {
      LastNewlineIsLast(t, e + 4, w, e + 5);
    }
    assert AllWs(t[e + 4..nl + 1]) by {
      WsEndAllWs(t, e + 4);
      assert forall j :: e + 4 <= j < nl + 1 ==> t[j] == t[e + 4..w][j - (e + 4)];
    }
  }

  /**
   * How the front-matter regex splits such a text: the metadata text
   * exactly, and a body that is what follows the closer less some whitespace
   * at least as long as the blank line.
   */
  lemma MatchShaped(t: string, y: string) returns (body: string)
    requires |y| >= 1 && !IsWs(y[0]) && forall k :: 0 <= k < |y| ==> !StartsAt(y, k, "\n---")
    requires |t| >= 10 + |y| && t[..3] == "---" && t[3] == '\n' && t[4..4 + |y|] == y
    requires t[4 + |y|..8 + |y|] == "\n---" && t[8 + |y|] == '\n' && t[9 + |y|] == '\n'
    ensures MatchFrontMatter(t) == Some((y, body))
    ensures 10 + |y| <= |t| - |body| && body == t[|t| - |body|..]
    ensures AllWs(t[8 + |y|..|t| - |body|])
  {
    var e := 4 + |y|;
    var nl := FrontPieces(t, y, e);
    FrontSplit(t, 4, e, nl);
    body := t[nl + 1..];
  }

  /** The searches of the front-matter regex on such a text: the metadata block is `y` and the blank line lies in the run after the closer. */
  lemma FrontPieces(t: string, y: string, e: nat) returns (nl: nat)
    requires |y| >= 1 && !IsWs(y[0]) && forall k :: 0 <= k < |y| ==> !StartsAt(y, k, "\n---")
    requires |t| >= 10 + |y| && t[..3] == "---" && t[3] == '\n' && t[4..4 + |y|] == y
    requires t[4 + |y|..8 + |y|] == "\n---" && t[8 + |y|] == '\n' && t[9 + |y|] == '\n'
    requires e == 4 + |y|
    ensures FrontOpens(t) && TryOpen(t, 3, WsEnd(t, 3)).value == (4, e) && t[4..e] == y
    ensures e + 4 <= |t| && LastNewline(t, e + 4, WsEnd(t, e + 4)).Some?
    ensures LastNewline(t, e + 4, WsEnd(t, e + 4)).value == nl
    ensures e + 6 <= nl + 1 <= |t| && AllWs(t[e + 4..nl + 1])
  {
    BlankAfterCloser(t, e);
    nl := LastNewline(t, e + 4, WsEnd(t, e + 4)).value;
    OpenAt(t, 3, y);
    assert StartsAt(t, 0, "---") by {
      assert t[0..3] == t[..3];
    }
  }

  /** The front-matter regex on a text that opens with `---` and a metadata block. */
  lemma {:induction false} FrontUnfold(t: string)
    requires FrontOpens(t)
    ensures MatchFrontMatter(t)
         == Some((t[TryOpen(t, 3, WsEnd(t, 3)).value.0..TryOpen(t, 3, WsEnd(t, 3)).value.1],
                  RawBody(t, TryOpen(t, 3, WsEnd(t, 3)).value.1)))
  {
  }

  /** The front-matter regex once the metadata block `t[g..e]` and the last newline `nl` after its closer are known. */
  lemma {:induction false} FrontSplit(t: string, g: nat, e: nat, nl: nat)
    requires FrontOpens(t) && TryOpen(t, 3, WsEnd(t, 3)).value == (g, e)
    requires LastNewline(t, e + 4, WsEnd(t, e + 4)).value == nl
    ensures nl < |t| && MatchFrontMatter(t) == Some((t[g..e], t[nl + 1..]))
  {
    FrontUnfold(t);
    assert RawBody(t, e) == t[nl + 1..];
  }

  /** The body the regex captures from such a text strips to what follows the blank line, stripped. */
  lemma MatchedBodyStrips(t: string, y: string, body: string)
    requires |t| >= 10 + |y| && t[8 + |y|] == '\n' && t[9 + |y|] == '\n'
    requires 10 + |y| <= |t| - |body| && body == t[|t| - |body|..]
    requires AllWs(t[8 + |y|..|t| - |body|])
    ensures Strip(body) == Strip(t[10 + |y|..])
  {
    BlankLine(t, 8 + |y|);
    StripSkipTo(t, 8 + |y|, |t| - |body|, 10 + |y|, body);
  }

  lemma BlankLine(t: string, i: nat)
    requires i + 2 <= |t| && t[i] == '\n' && t[i + 1] == '\n'
    ensures AllWs(t[i..i + 2])
  {
  }

  /** Two whitespace runs from `i`: the text after one strips as the text after the other. */
  lemma StripSkipTo(t: string, i: nat, j: nat, k: nat, body: string)
    requires i <= j <= |t| && AllWs(t[i..j]) && i <= k <= |t| && AllWs(t[i..k])
    requires body == t[j..]
    ensures Strip(body) == Strip(t[k..])
  {
    StripSkipEither(t, i, j, k);
  }

  /**
   * Round trip: parsing a serialized note gives back every metadata field,
   * the body with surrounding whitespace stripped, and the path it was read from.
   */
  lemma {:induction false} ParseSerialize(n: Note, codec: YamlCodec, path: string, now: string)
    requires Lawful(codec)
    ensures Parse(path, Serialize(n, codec), codec, now)
         == Success(n.(content := Strip(n.content), filePath := Some(path)))
  {
    var d := codec.dump(MetaOf(n));
    assert WellDumped(d) && codec.load(Chomp(d)) == Mapping(MetaOf(n));
    var y := Chomp(d);
    var t := Serialize(n, codec);
    SerializeShape(n, codec);
    ChompShape(d);
    ShapeFacts(t, y, n.content);
    var body := MatchShaped(t, y);
    MatchedBodyStrips(t, y, body);
    MetaRoundTrip(n, Stem(path), Strip(n.content), now, Some(path));
  }
}
