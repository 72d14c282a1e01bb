/**
 * The image-URL rewriter applied to every chapter text before it is stored
 * (superbook-src/publish.js, lines 170-176).
 *
 * `publish.js` calls `content.replace(/<img src="([^"]+)"/g, f)`: the pattern
 * is scanned left to right, matches never overlap, and every match is
 * replaced by `f(src)` where `src` is the captured group. `f` turns a source
 * that does not start with `http://` or `https://` into an absolute tag on
 * the book's raw GitHub folder and otherwise returns the bare `src`, so the
 * `<img src="` prefix and the closing quote of an absolute tag are dropped.
 */
module ImageUrls {
  import opened Wrappers

  /** What the pattern demands before the captured group. */
  const ImgOpen: string := "<img src=\""

  /** The two schemes `/^https?:\/\//` accepts. */
  const HttpScheme: string := "http://"
  const HttpsScheme: string := "https://"

  /** The folder every relative image source is anchored at (followed by the book's source name). */
  const RawBase: string := HttpsScheme + "raw.githubusercontent.com/getify/You-Dont-Know-JS/2nd-ed/"

  predicate QuoteFree(s: string) {
    forall i :: 0 <= i < |s| ==> s[i] != '"'
  }

  /** What `([^"]+)` can capture: one or more characters, none of them a quote. */
  predicate ValidSrc(s: string) {
    |s| > 0 && QuoteFree(s)
  }

  /** The whole text one match covers: prefix, capture and the closing quote. */
  function TagText(src: string): string {
    ImgOpen + src + "\""
  }

  /** `/^https?:\/\//` — a case-sensitive test at the start of the source only. */
  predicate IsAbsolute(src: string) {
    HttpScheme <= src || HttpsScheme <= src
  }

  /** What the replacement callback returns for one captured source. */
  function Replacement(src: string, sourceName: string): (r: string)
    ensures IsAbsolute(src) ==> r == src
    ensures !IsAbsolute(src) ==> ImgOpen <= r && IsAbsolute(r[|ImgOpen|..])
    ensures !IsAbsolute(src) ==> |src| + 1 <= |r| && r[|r| - |src| - 1..] == src + "\""
  {
    if IsAbsolute(src) then src
    else
      var tag := TagText(RawBase + sourceName + "/" + src);
      assert tag == ImgOpen + (HttpsScheme + ("raw.githubusercontent.com/getify/You-Dont-Know-JS/2nd-ed/" + sourceName + "/" + src + "\""));
      assert tag[|ImgOpen|..] == HttpsScheme + ("raw.githubusercontent.com/getify/You-Dont-Know-JS/2nd-ed/" + sourceName + "/" + src + "\"");
      tag
  }

  /** Length of the longest quote-free prefix of `s`. */
  function QuoteFreeRun(s: string): (n: nat)
    ensures n <= |s|
    ensures forall i :: 0 <= i < n ==> s[i] != '"'
    ensures n < |s| ==> s[n] == '"'
  {
    if |s| == 0 || s[0] == '"' then 0 else 1 + QuoteFreeRun(s[1..])
  }

  /**
   * The match of the pattern that starts at the first character of `text`,
   * if there is one. `[^"]+` followed by `"` leaves no choice: the capture
   * runs up to the first quote after the prefix.
   */
  function MatchAt(text: string): (m: Option<string>)
    ensures m.Some? ==> 0 < |m.value| && |TagText(m.value)| <= |text|
  {
    if ImgOpen <= text then
      var rest := text[|ImgOpen|..];
      var n := QuoteFreeRun(rest);
      if 0 < n < |rest| then Some(rest[..n]) else None
    else
      None
  }

  /** The global replace: every non-overlapping match, leftmost first, is replaced. */
  function Rewrite(text: string, sourceName: string): (r: string)
    ensures '<' !in text ==> r == text
    decreases |text|
  {
    if |text| == 0 then ""
    else
      match MatchAt(text)
      case Some(src) =>
        assert text[0] == ImgOpen[0] == '<';
        Replacement(src, sourceName) + Rewrite(text[|TagText(src)|..], sourceName)
      case None =>
        assert '<' !in text ==> '<' !in text[1..] && text == [text[0]] + text[1..] by {
          if '<' !in text {
            assert forall c :: c in text[1..] ==> c in text;
          }
        }
        [text[0]] + Rewrite(text[1..], sourceName)
  }

  /** No position of `text` starts a match. */
  ghost predicate NoTag(text: string) {
    forall i :: 0 <= i <= |text| ==> MatchAt(text[i..]).None?
  }

  // ---------------------------------------------------------------------------
  // Matching
  // ---------------------------------------------------------------------------

  /** A match is a non-empty, quote-free source wrapped in the prefix and a closing quote, at the head of the text. */
  lemma MatchAtSound(text: string)
    requires MatchAt(text).Some?
    ensures ValidSrc(MatchAt(text).value) && TagText(MatchAt(text).value) <= text
  {
    var rest := text[|ImgOpen|..];
    var n := QuoteFreeRun(rest);
    var src := rest[..n];
    assert text == ImgOpen + rest;
    assert rest == src + "\"" + rest[n + 1..];
    assert TagText(src) + rest[n + 1..] == text;
  }

  /** Every complete tag at the start of the text is the match found there. */
  lemma MatchAtFindsTag(src: string, text: string)
    requires ValidSrc(src) && TagText(src) <= text
    ensures MatchAt(text) == Some(src)
  {
    assert ImgOpen <= text by {
      assert text[..|ImgOpen|] == TagText(src)[..|ImgOpen|];
    }
    var rest := text[|ImgOpen|..];
    assert rest[..|src|] == src by {
      assert TagText(src)[|ImgOpen|..|ImgOpen| + |src|] == src;
    }
    assert rest[|src|] == '"' by {
      assert text[|ImgOpen| + |src|] == TagText(src)[|ImgOpen| + |src|];
    }
    assert forall i :: 0 <= i < |src| ==> rest[i] == src[i] != '"';
    assert QuoteFreeRun(rest) == |src|;
  }

  /** `<img src=""` is not a match: the capture needs at least one character. */
  lemma EmptySrcIsNoTag(rest: string)
    ensures MatchAt(ImgOpen + "\"" + rest) == None
  {
    var text := ImgOpen + "\"" + rest;
    assert text[|ImgOpen|..][0] == '"';
  }

  /** An unterminated `<img src="…` is not a match: the closing quote is required. */
  lemma UnterminatedIsNoTag(s: string)
    requires QuoteFree(s)
    ensures MatchAt(ImgOpen + s) == None
  {
    var text := ImgOpen + s;
    assert text[|ImgOpen|..] == s;
  }

  /** A match needs a quote right after its capture. */
  lemma MatchNeedsQuote(text: string)
    requires MatchAt(text).Some?
    ensures !QuoteFree(text)
  {
    var src := MatchAt(text).value;
    assert text[|ImgOpen| + |src|] == TagText(src)[|ImgOpen| + |src|] == '"';
  }

  // ---------------------------------------------------------------------------
  // Rewriting one tag
  // ---------------------------------------------------------------------------

  /** A tag at the head of the text is replaced and scanning resumes after its closing quote. */
  lemma RewriteTag(src: string, rest: string, sourceName: string)
    requires ValidSrc(src)
    ensures Rewrite(TagText(src) + rest, sourceName) == Replacement(src, sourceName) + Rewrite(rest, sourceName)
  {
    var text := TagText(src) + rest;
    MatchAtFindsTag(src, text);
    assert text[|TagText(src)|..] == rest;
  }

  /**
   * A relative source (anything not starting with `http://` or `https://`,
   * case-sensitively) is re-anchored on the book's raw GitHub folder; the
   * rest of the tag is kept.
   */
  lemma RewriteRelativeTag(src: string, rest: string, sourceName: string)
    requires ValidSrc(src) && !IsAbsolute(src)
    ensures Rewrite(TagText(src) + rest, sourceName)
         == TagText(RawBase + sourceName + "/" + src) + Rewrite(rest, sourceName)
  {
    RewriteTag(src, rest, sourceName);
  }

  /**
   * An absolute source replaces the whole match: the `<img src="` prefix and
   * the closing quote disappear, so the tag is not kept as it was.
   */
  lemma RewriteAbsoluteTag(src: string, rest: string, sourceName: string)
    requires ValidSrc(src) && IsAbsolute(src)
    ensures Rewrite(TagText(src) + rest, sourceName) == src + Rewrite(rest, sourceName)
    ensures Rewrite(TagText(src) + rest, sourceName) != TagText(src) + rest
  {
    RewriteTag(src, rest, sourceName);
    assert (src + Rewrite(rest, sourceName))[0] == src[0] == 'h';
    assert (TagText(src) + rest)[0] == '<';
  }

  // ---------------------------------------------------------------------------
  // Text outside matches
  // ---------------------------------------------------------------------------

  /** Text in which no `<` occurs cannot start a match and is copied unchanged and in order. */
  lemma {:induction false} RewriteCopiesPlainText(u: string, rest: string, sourceName: string)
    requires '<' !in u
    ensures Rewrite(u + rest, sourceName) == u + Rewrite(rest, sourceName)
    decreases |u|
  {
    if |u| > 0 {
      PlainSplit(u, rest);
      RewritePlainHead(u + rest, sourceName);
      RewriteCopiesPlainText(u[1..], rest, sourceName);
      ConsAppend(u, Rewrite(rest, sourceName));
    } else {
      assert u + rest == rest;
    }
  }

  /** Splitting the first character off a `<`-free text followed by more text. */
  lemma PlainSplit(u: string, rest: string)
    requires '<' !in u && |u| > 0
    ensures (u + rest)[0] == u[0] != '<'
    ensures (u + rest)[1..] == u[1..] + rest
    ensures '<' !in u[1..]
  {
    assert u[0] in u;
    assert forall c :: c in u[1..] ==> c in u;
  }

  /** Re-attaching the first character of `u` in front of `u[1..] + w`. */
  lemma ConsAppend(u: string, w: string)
    requires |u| > 0
    ensures [u[0]] + (u[1..] + w) == u + w
  {
    assert u == [u[0]] + u[1..];
  }

  /** A text whose first character is not `<` starts no match, so that character is copied. */
  lemma RewritePlainHead(text: string, sourceName: string)
    requires |text| > 0 && text[0] != '<'
    ensures Rewrite(text, sourceName) == [text[0]] + Rewrite(text[1..], sourceName)
  {
    assert ImgOpen[0] == '<';
    assert !(ImgOpen <= text);
    RewriteNoMatchHead(text, sourceName);
  }

  /** Where no match starts, the first character is copied and scanning moves on by one. */
  lemma RewriteNoMatchHead(text: string, sourceName: string)
    requires |text| > 0 && MatchAt(text).None?
    ensures Rewrite(text, sourceName) == [text[0]] + Rewrite(text[1..], sourceName)
  {
  }

  /** No character of the pattern's prefix after its first is a `<`. */
  lemma ImgOpenRestPlain()
    ensures '<' !in ImgOpen[1..]
  {
  }

  /** A text without any quote contains no match and is returned unchanged. */
  lemma {:induction false} RewriteQuoteFree(text: string, sourceName: string)
    requires QuoteFree(text)
    ensures Rewrite(text, sourceName) == text
    decreases |text|
  {
    if |text| > 0 {
      if MatchAt(text).Some? {
        MatchNeedsQuote(text);
        assert false;
      }
      assert QuoteFree(text[1..]) by {
        forall i | 0 <= i < |text[1..]| ensures text[1..][i] != '"' {
          assert text[1..][i] == text[i + 1];
        }
      }
      RewriteQuoteFree(text[1..], sourceName);
      assert text == [text[0]] + text[1..];
    }
  }

  /** `<img src=""` is copied through unchanged and scanning resumes after it. */
  lemma RewriteEmptySrc(rest: string, sourceName: string)
    ensures Rewrite(ImgOpen + "\"" + rest, sourceName) == ImgOpen + "\"" + Rewrite(rest, sourceName)
  {
    var empty := ImgOpen + "\"";
    EmptySrcIsNoTag(rest);
    RewriteNoMatchHead(empty + rest, sourceName);
    HeadSplit(empty, rest);
    EmptyTagRestPlain();
    RewriteCopiesPlainText(empty[1..], rest, sourceName);
    ConsAppend(empty, Rewrite(rest, sourceName));
  }

  /** An unterminated `<img src="…` at the end of the text is returned unchanged. */
  lemma RewriteUnterminated(s: string, sourceName: string)
    requires QuoteFree(s)
    ensures Rewrite(ImgOpen + s, sourceName) == ImgOpen + s
  {
    UnterminatedIsNoTag(s);
    RewriteNoMatchHead(ImgOpen + s, sourceName);
    HeadSplit(ImgOpen, s);
    ImgOpenRestPlain();
    RewriteCopiesPlainText(ImgOpen[1..], s, sourceName);
    RewriteQuoteFree(s, sourceName);
    ConsAppend(ImgOpen, s);
  }

  /** Splitting the first character off a non-empty text followed by more text. */
  lemma HeadSplit(u: string, rest: string)
    requires |u| > 0
    ensures (u + rest)[0] == u[0]
    ensures (u + rest)[1..] == u[1..] + rest
  {
  }

  /** No character of `<img src=""` after its first is a `<`. */
  lemma EmptyTagRestPlain()
    ensures '<' !in (ImgOpen + "\"")[1..]
  {
    assert (ImgOpen + "\"")[1..] == ImgOpen[1..] + "\"";
  }

  /**
   * The rewrite leaves a text unchanged exactly when the text contains no
   * match: a relative tag always grows and an absolute one always loses its
   * prefix, so any match changes the text.
   */
  lemma {:induction false} RewriteUnchangedIff(text: string, sourceName: string)
    ensures Rewrite(text, sourceName) == text <==> NoTag(text)
    decreases |text|
  {
    if |text| == 0 {
      assert text[0..] == text;
    } else if MatchAt(text).Some? {
      MatchChangesText(text, sourceName);
    } else {
      RewriteUnchangedIff(text[1..], sourceName);
      NoTagStep(text);
      RewriteNoMatchHead(text, sourceName);
      ConsInjective(text, Rewrite(text[1..], sourceName));
    }
  }

  /** A text equals its first character followed by `w` exactly when `w` is the rest of it. */
  lemma ConsInjective(text: string, w: string)
    requires |text| > 0
    ensures [text[0]] + w == text <==> w == text[1..]
  {
    assert text == [text[0]] + text[1..];
    if [text[0]] + w == text {
      assert w == ([text[0]] + w)[1..];
    }
  }

  /** A match at the head of the text always changes the text. */
  lemma MatchChangesText(text: string, sourceName: string)
    requires MatchAt(text).Some?
    ensures Rewrite(text, sourceName) != text && !NoTag(text)
  {
    assert text[0..] == text;
    var src := MatchAt(text).value;
    var after := text[|TagText(src)|..];
    assert text == TagText(src) + after;
    if IsAbsolute(src) {
      RewriteAbsoluteTag(src, after, sourceName);
    } else {
      RewriteRelativeTag(src, after, sourceName);
      RelativeTagGrows(src, after, Rewrite(after, sourceName), sourceName);
    }
  }

  /** Past a head that starts no match, the text has a match exactly when its tail does. */
  lemma NoTagStep(text: string)
    requires |text| > 0 && MatchAt(text).None?
    ensures NoTag(text) <==> NoTag(text[1..])
  {
    var tail := text[1..];
    if NoTag(tail) {
      forall i | 0 <= i <= |text| ensures MatchAt(text[i..]).None? {
        if i > 0 {
          assert text[i..] == tail[i - 1..];
        }
      }
    }
    if NoTag(text) {
      forall i | 0 <= i <= |tail| ensures MatchAt(tail[i..]).None? {
        assert tail[i..] == text[i + 1..];
      }
    }
  }

  /** A replaced relative tag can never equal the original tag followed by anything. */
  lemma RelativeTagGrows(src: string, after: string, rewritten: string, sourceName: string)
    requires ValidSrc(src) && !IsAbsolute(src)
    ensures TagText(RawBase + sourceName + "/" + src) + rewritten != TagText(src) + after
  {
    var mid := RawBase + sourceName + "/" + src;
    var i := SchemeMismatch(src);
    RawFolderStartsWithScheme(sourceName + "/" + src);
    assert RawBase + sourceName + "/" + src == RawBase + (sourceName + "/" + src);
    TagTextAt(src, after);
    TagTextAt(mid, rewritten);
    var k := |ImgOpen|;
    assert (TagText(mid) + rewritten)[k + i] != (TagText(src) + after)[k + i];
  }

  /** The first position, within the `https://` scheme, where a relative source departs from it. */
  lemma SchemeMismatch(src: string) returns (i: nat)
    requires ValidSrc(src) && !IsAbsolute(src)
    ensures i < |HttpsScheme| && i <= |src|
    ensures i < |src| ==> src[i] != HttpsScheme[i]
  {
    if |src| >= |HttpsScheme| {
      assert src[..|HttpsScheme|] != HttpsScheme;
      assert exists j :: 0 <= j < |HttpsScheme| && src[j] != HttpsScheme[j];
      i :| 0 <= i < |HttpsScheme| && src[i] != HttpsScheme[i];
    } else {
      i := |src|;
    }
  }

  /** Every rewritten source starts with the `https://` scheme, which holds no quote. */
  lemma RawFolderStartsWithScheme(tail: string)
    ensures forall i :: 0 <= i < |HttpsScheme| ==> (RawBase + tail)[i] == HttpsScheme[i] != '"'
  {
    assert forall i :: 0 <= i < |HttpsScheme| ==> RawBase[i] == HttpsScheme[i];
  }

  /** Where a tag's characters sit in a text that starts with it. */
  lemma TagTextAt(src: string, after: string)
    ensures |ImgOpen| + |src| < |TagText(src) + after|
    ensures forall i :: 0 <= i < |src| ==> (TagText(src) + after)[|ImgOpen| + i] == src[i]
    ensures (TagText(src) + after)[|ImgOpen| + |src|] == '"'
  {
  }

  /** The empty text and any text without a match come back unchanged. */
  lemma RewriteNoTag(text: string, sourceName: string)
    requires NoTag(text)
    ensures Rewrite(text, sourceName) == text
  {
    RewriteUnchangedIff(text, sourceName);
  }

  // ---------------------------------------------------------------------------
  // The replace as a reading of the text into pieces
  // ---------------------------------------------------------------------------

  /** One step of the scan: a character copied through, or one whole match. */
  datatype Piece = Char(c: char) | Tag(src: string)

  /** The input characters a piece stands for. */
  function PieceText(p: Piece): (t: string)
    ensures |t| > 0
  {
    match p
    case Char(c) => [c]
    case Tag(src) => TagText(src)
  }

  /** The text a sequence of pieces was read from. */
  function Source(ps: seq<Piece>): (t: string)
    ensures |t| >= |ps|
    decreases |ps|
  {
    if |ps| == 0 then "" else PieceText(ps[0]) + Source(ps[1..])
  }

  /** The output of the replace for a sequence of pieces: characters kept, matches replaced. */
  function Emit(ps: seq<Piece>, sourceName: string): string
    decreases |ps|
  {
    if |ps| == 0 then ""
    else
      match ps[0]
      case Char(c) => [c] + Emit(ps[1..], sourceName)
      case Tag(src) => Replacement(src, sourceName) + Emit(ps[1..], sourceName)
  }

  /**
   * The reading a global, left-to-right, non-overlapping regex replace makes:
   * every tag is a possible match, and a character is read on its own only
   * where no match starts.
   */
  predicate LeftmostParse(ps: seq<Piece>)
    decreases |ps|
  {
    |ps| == 0 ||
    ((match ps[0]
      case Char(_) => MatchAt(Source(ps)).None?
      case Tag(src) => ValidSrc(src))
     && LeftmostParse(ps[1..]))
  }

  /** The piece a leftmost reading of a non-empty text starts with. */
  function FirstPiece(text: string): Piece
    requires |text| > 0
  {
    match MatchAt(text)
    case Some(src) => Tag(src)
    case None => Char(text[0])
  }

  /** Reads `text` into pieces, leftmost match first. */
  function Scan(text: string): (ps: seq<Piece>)
    ensures Source(ps) == text
    ensures LeftmostParse(ps)
    decreases |text|
  {
    if |text| == 0 then []
    else
      match MatchAt(text)
      case Some(src) =>
        assert text == TagText(src) + text[|TagText(src)|..];
        [Tag(src)] + Scan(text[|TagText(src)|..])
      case None =>
        assert text == [text[0]] + text[1..];
        [Char(text[0])] + Scan(text[1..])
  }

  /** In a leftmost reading the first piece is fixed by the text alone. */
  lemma HeadPiece(ps: seq<Piece>)
    requires LeftmostParse(ps) && |ps| > 0
    ensures ps[0] == FirstPiece(Source(ps))
  {
    var text := Source(ps);
    match ps[0]
    case Tag(src) =>
      MatchAtFindsTag(src, text);
    case Char(c) =>
  }

  /** A text has exactly one leftmost reading. */
  lemma {:induction false} LeftmostParseUnique(ps: seq<Piece>, qs: seq<Piece>)
    requires LeftmostParse(ps) && LeftmostParse(qs)
    requires Source(ps) == Source(qs)
    ensures ps == qs
    decreases |ps|
  {
    if |ps| == 0 || |qs| == 0 {
      assert |Source(ps)| == 0 || |Source(qs)| == 0;
    } else {
      ParseStep(ps, qs);
      LeftmostParseUnique(ps[1..], qs[1..]);
      SameHeadSameTail(ps, qs);
    }
  }

  /** Two leftmost readings of one text agree on the first piece and read the same remainder. */
  lemma ParseStep(ps: seq<Piece>, qs: seq<Piece>)
    requires LeftmostParse(ps) && LeftmostParse(qs)
    requires Source(ps) == Source(qs) && |ps| > 0 && |qs| > 0
    ensures ps[0] == qs[0]
    ensures LeftmostParse(ps[1..]) && LeftmostParse(qs[1..])
    ensures Source(ps[1..]) == Source(qs[1..])
  {
    HeadPiece(ps);
    HeadPiece(qs);
    SourceTail(ps);
    SourceTail(qs);
  }

  /** Sequences with the same first element and the same remainder are equal. */
  lemma SameHeadSameTail(ps: seq<Piece>, qs: seq<Piece>)
    requires |ps| > 0 && |qs| > 0 && ps[0] == qs[0] && ps[1..] == qs[1..]
    ensures ps == qs
  {
    assert ps == [ps[0]] + ps[1..];
    assert qs == [qs[0]] + qs[1..];
  }

  /** The pieces after the first were read from the text after the first piece's characters. */
  lemma SourceTail(ps: seq<Piece>)
    requires |ps| > 0
    ensures |PieceText(ps[0])| <= |Source(ps)|
    ensures Source(ps[1..]) == Source(ps)[|PieceText(ps[0])|..]
  {
    var t := PieceText(ps[0]);
    assert Source(ps) == t + Source(ps[1..]);
  }

  /**
   * The rewrite is the leftmost reading with every match replaced: text
   * outside matches is copied unchanged and in order.
   */
  lemma {:induction false} RewriteFollowsParse(ps: seq<Piece>, sourceName: string)
    requires LeftmostParse(ps)
    ensures Rewrite(Source(ps), sourceName) == Emit(ps, sourceName)
    decreases |ps|
  {
    if |ps| > 0 {
      RewriteFollowsParse(ps[1..], sourceName);
      var text := Source(ps);
      match ps[0]
      case Char(c) =>
        assert text[1..] == Source(ps[1..]);
      case Tag(src) =>
        RewriteTag(src, Source(ps[1..]), sourceName);
    }
  }

  /** The rewrite of any text, stated through its unique leftmost reading. */
  lemma RewriteIsEmitOfScan(text: string, sourceName: string)
    ensures Rewrite(text, sourceName) == Emit(Scan(text), sourceName)
  {
    RewriteFollowsParse(Scan(text), sourceName);
  }

  // ---------------------------------------------------------------------------
  // The callback the comment on line 169 describes
  // ---------------------------------------------------------------------------

  /**
   * "Convert relative URLs to absolute": a relative source is re-anchored as
   * in `Replacement`, and an absolute one gives back the whole match, so its
   * tag stays as it was.
   */
  function IntendedReplacement(src: string, sourceName: string): (r: string)
    ensures !IsAbsolute(src) ==> r == Replacement(src, sourceName)
    ensures IsAbsolute(src) ==> ImgOpen <= r && r[|ImgOpen|..] == src + "\""
  {
    if IsAbsolute(src) then TagText(src) else Replacement(src, sourceName)
  }

  /** The global replace with the intended callback. */
  function RewriteIntended(text: string, sourceName: string): (r: string)
    ensures '<' !in text ==> r == text
    decreases |text|
  {
    if |text| == 0 then ""
    else
      match MatchAt(text)
      case Some(src) =>
        assert text[0] == ImgOpen[0] == '<';
        IntendedReplacement(src, sourceName) + RewriteIntended(text[|TagText(src)|..], sourceName)
      case None =>
        assert '<' !in text ==> '<' !in text[1..] && text == [text[0]] + text[1..] by {
          if '<' !in text {
            assert forall c :: c in text[1..] ==> c in text;
          }
        }
        [text[0]] + RewriteIntended(text[1..], sourceName)
  }

  /** How many matches of the reading have an absolute source. */
  function AbsoluteCount(ps: seq<Piece>): nat {
    if |ps| == 0 then 0
    else (if ps[0].Tag? && IsAbsolute(ps[0].src) then 1 else 0) + AbsoluteCount(ps[1..])
  }

  /**
   * Each absolute tag costs the as-written rewrite the prefix and the
   * closing quote the intended one keeps; everything else is the same.
   */
  lemma {:induction false} RewriteIntendedLength(text: string, sourceName: string)
    ensures |RewriteIntended(text, sourceName)|
         == |Rewrite(text, sourceName)| + (|ImgOpen| + 1) * AbsoluteCount(Scan(text))
    decreases |text|
  {
    if |text| > 0 {
      match MatchAt(text)
      case Some(src) =>
        var rest := text[|TagText(src)|..];
        RewriteIntendedLength(rest, sourceName);
        TagStep(text, src, sourceName);
        ReplacementGap(src, sourceName);
        var n := AbsoluteCount(Scan(rest));
        assert (|ImgOpen| + 1) * ((if IsAbsolute(src) then 1 else 0) + n)
            == (if IsAbsolute(src) then |ImgOpen| + 1 else 0) + (|ImgOpen| + 1) * n;
      case None =>
        var rest := text[1..];
        RewriteIntendedLength(rest, sourceName);
        CharStep(text, sourceName);
    }
  }

  /** The intended callback returns `|ImgOpen| + 1` more characters for an absolute source, the same otherwise. */
  lemma ReplacementGap(src: string, sourceName: string)
    ensures |IntendedReplacement(src, sourceName)|
         == |Replacement(src, sourceName)| + (if IsAbsolute(src) then |ImgOpen| + 1 else 0)
  {
    if IsAbsolute(src) {
      var r := IntendedReplacement(src, sourceName);
      assert |r| == |ImgOpen| + |r[|ImgOpen|..]|;
    }
  }

  /** Any absolute tag makes the gap between the two rewrites positive. */
  lemma GapPositive(n: nat)
    requires n > 0
    ensures (|ImgOpen| + 1) * n > 0
  {
  }

  /** One match at the head: both rewrites and the reading take it whole. */
  lemma TagStep(text: string, src: string, sourceName: string)
    requires MatchAt(text) == Some(src)
    ensures var rest := text[|TagText(src)|..];
            && Rewrite(text, sourceName) == Replacement(src, sourceName) + Rewrite(rest, sourceName)
            && RewriteIntended(text, sourceName) == IntendedReplacement(src, sourceName) + RewriteIntended(rest, sourceName)
            && AbsoluteCount(Scan(text)) == (if IsAbsolute(src) then 1 else 0) + AbsoluteCount(Scan(rest))
  {
    var rest := text[|TagText(src)|..];
    assert Scan(text) == [Tag(src)] + Scan(rest);
    assert Scan(text)[1..] == Scan(rest);
  }

  /** No match at the head: both rewrites and the reading copy one character. */
  lemma CharStep(text: string, sourceName: string)
    requires |text| > 0 && MatchAt(text).None?
    ensures var rest := text[1..];
            && Rewrite(text, sourceName) == [text[0]] + Rewrite(rest, sourceName)
            && RewriteIntended(text, sourceName) == [text[0]] + RewriteIntended(rest, sourceName)
            && AbsoluteCount(Scan(text)) == AbsoluteCount(Scan(rest))
  {
    var rest := text[1..];
    assert Scan(text) == [Char(text[0])] + Scan(rest);
    assert Scan(text)[1..] == Scan(rest);
  }

  /**
   * The intended rewrite differs from the as-written one exactly when the
   * text holds a tag with an absolute source.
   */
  lemma {:induction false} RewriteIntendedAgreesIff(text: string, sourceName: string)
    ensures RewriteIntended(text, sourceName) == Rewrite(text, sourceName) <==> AbsoluteCount(Scan(text)) == 0
    decreases |text|
  {
    var n := AbsoluteCount(Scan(text));
    if n > 0 {
      RewriteIntendedLength(text, sourceName);
      GapPositive(n);
    } else if |text| > 0 {
      match MatchAt(text)
      case Some(src) =>
        var rest := text[|TagText(src)|..];
        TagStep(text, src, sourceName);
        assert !IsAbsolute(src);
        RewriteIntendedAgreesIff(rest, sourceName);
      case None =>
        CharStep(text, sourceName);
        RewriteIntendedAgreesIff(text[1..], sourceName);
    }
  }

  /** With the intended callback a tag at the head is still replaced and scanning resumes after it. */
  lemma RewriteIntendedTag(src: string, rest: string, sourceName: string)
    requires ValidSrc(src)
    ensures RewriteIntended(TagText(src) + rest, sourceName)
         == IntendedReplacement(src, sourceName) + RewriteIntended(rest, sourceName)
  {
    var text := TagText(src) + rest;
    MatchAtFindsTag(src, text);
    assert text[|TagText(src)|..] == rest;
  }

  /** The intended callback keeps an absolute tag exactly as it was. */
  lemma RewriteIntendedKeepsAbsoluteTag(src: string, rest: string, sourceName: string)
    requires ValidSrc(src) && IsAbsolute(src)
    ensures RewriteIntended(TagText(src) + rest, sourceName) == TagText(src) + RewriteIntended(rest, sourceName)
  {
    RewriteIntendedTag(src, rest, sourceName);
  }

  /** Every match of the reading has an absolute source. */
  predicate AllAbsolute(ps: seq<Piece>) {
    forall i :: 0 <= i < |ps| && ps[i].Tag? ==> IsAbsolute(ps[i].src)
  }

  /**
   * With the intended callback a text whose image tags all have absolute
   * sources comes back unchanged; as written, any such tag changes it
   * (`RewriteUnchangedIff`).
   */
  lemma {:induction false} RewriteIntendedKeepsAbsoluteText(text: string, sourceName: string)
    requires AllAbsolute(Scan(text))
    ensures RewriteIntended(text, sourceName) == text
    decreases |text|
  {
    if |text| > 0 {
      var ps := Scan(text);
      match MatchAt(text)
      case Some(src) =>
        var rest := text[|TagText(src)|..];
        assert ps == [Tag(src)] + Scan(rest);
        assert ps[0] == Tag(src);
        assert AllAbsolute(Scan(rest)) by {
          forall i | 0 <= i < |Scan(rest)| && Scan(rest)[i].Tag? ensures IsAbsolute(Scan(rest)[i].src) {
            assert Scan(rest)[i] == ps[i + 1];
          }
        }
        RewriteIntendedKeepsAbsoluteText(rest, sourceName);
        assert text == TagText(src) + rest;
      case None =>
        var rest := text[1..];
        assert ps == [Char(text[0])] + Scan(rest);
        assert AllAbsolute(Scan(rest)) by {
          forall i | 0 <= i < |Scan(rest)| && Scan(rest)[i].Tag? ensures IsAbsolute(Scan(rest)[i].src) {
            assert Scan(rest)[i] == ps[i + 1];
          }
        }
        RewriteIntendedKeepsAbsoluteText(rest, sourceName);
        assert text == [text[0]] + rest;
    }
  }

  /** As written, an absolute tag loses its `<img src="` prefix and its closing quote. */
  lemma AbsoluteTagExample(sourceName: string)
    ensures Rewrite(TagText("http://x/a.png") + " alt=\"y\">", sourceName) == "http://x/a.png" + " alt=\"y\">"
  {
    var src := "http://x/a.png";
    var rest := " alt=\"y\">";
    AbsoluteSample();
    RewriteAbsoluteTag(src, rest, sourceName);
    assert Rewrite(rest, sourceName) == rest;
  }

  /** With the intended callback the same tag is kept whole. */
  lemma AbsoluteTagIntendedExample(sourceName: string)
    ensures RewriteIntended(TagText("http://x/a.png") + " alt=\"y\">", sourceName) == TagText("http://x/a.png") + " alt=\"y\">"
  {
    var src := "http://x/a.png";
    var rest := " alt=\"y\">";
    AbsoluteSample();
    RewriteIntendedKeepsAbsoluteTag(src, rest, sourceName);
  }

  /** The sample source and the text after it. */
  lemma AbsoluteSample()
    ensures ValidSrc("http://x/a.png") && IsAbsolute("http://x/a.png")
    ensures '<' !in " alt=\"y\">"
  {
    assert "http://x/a.png" == HttpScheme + "x/a.png";
  }

  // ---------------------------------------------------------------------------
  // Examples
  // ---------------------------------------------------------------------------

  /** A figure of the get-started book is re-anchored on that book's folder. */
  lemma FigureExample()
    ensures Rewrite(TagText("images/fig1.png") + ">", "get-started")
         == TagText(RawBase + "get-started" + "/" + "images/fig1.png") + ">"
  {
    var src := "images/fig1.png";
    assert src[0] == 'i' && HttpScheme[0] == 'h' && HttpsScheme[0] == 'h';
    RewriteRelativeTag(src, ">", "get-started");
    RewriteQuoteFree(">", "get-started");
  }

  /** The scheme test is case-sensitive: an upper-case scheme counts as relative. */
  lemma UpperCaseSchemeIsRelative(rest: string, sourceName: string)
    ensures Rewrite(TagText("HTTP://example.com/a.png") + rest, sourceName)
         == TagText(RawBase + sourceName + "/" + "HTTP://example.com/a.png") + Rewrite(rest, sourceName)
  {
    var upper := "HTTP://example.com/a.png";
    assert upper[0] == 'H' && HttpScheme[0] == 'h' && HttpsScheme[0] == 'h';
    RewriteRelativeTag(upper, rest, sourceName);
  }

  /** The scheme test needs the scheme: a scheme-relative URL counts as relative. */
  lemma SchemeRelativeIsRelative(rest: string, sourceName: string)
    ensures Rewrite(TagText("//cdn.example.com/a.png") + rest, sourceName)
         == TagText(RawBase + sourceName + "/" + "//cdn.example.com/a.png") + Rewrite(rest, sourceName)
  {
    var schemeRelative := "//cdn.example.com/a.png";
    assert schemeRelative[0] == '/' && HttpScheme[0] == 'h' && HttpsScheme[0] == 'h';
    RewriteRelativeTag(schemeRelative, rest, sourceName);
  }
}
