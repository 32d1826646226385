/**
 * The text chunker of `ArmTTS.tokenize(text:)`: normalises punctuation,
 * then peels off chunks of at most MAX_LENGTH characters, cutting after
 * the rightmost full-stop mark ':' in the window, else after the
 * rightmost comma ',', else at the leftmost space (where a synthetic ','
 * pause is appended).
 */
module Chunker {
  import opened Wrappers
  import opened Text

  /** Longest chunk, in characters, handed to the preprocessing service. */
  const MAX_LENGTH: nat := 140

  /** Sentence-ending marks: ';', Armenian full stop, one-dot leader, '.'. */
  const FULL_STOPS: set<char> := {';', '\U{0589}', '\U{2024}', '.'}

  /** Comma-like marks: Armenian comma and the backtick. */
  const COMMA_MARKS: set<char> := {'\U{055D}', '`'}

  /** One regular-expression replacement of a character class by `mark`. */
  function ReplaceMarks(s: string, marks: set<char>, mark: char): string {
    seq(|s|, i requires 0 <= i < |s| => if s[i] in marks then mark else s[i])
  }

  /** The two replacement passes that open `tokenize`. */
  function Normalize(text: string): (r: string)
    ensures |r| == |text|
    ensures forall i :: 0 <= i < |text| ==>
      (text[i] in FULL_STOPS ==> r[i] == ':') &&
      (text[i] in COMMA_MARKS ==> r[i] == ',') &&
      (text[i] !in FULL_STOPS && text[i] !in COMMA_MARKS ==> r[i] == text[i])
  {
    ReplaceMarks(ReplaceMarks(text, FULL_STOPS, ':'), COMMA_MARKS, ',')
  }

  /** After normalisation no sentence-ending or comma-like mark is left, and a second pass changes nothing. */
  lemma NormalizeIsIdempotent(text: string)
    ensures forall i :: 0 <= i < |Normalize(text)| ==>
      Normalize(text)[i] !in FULL_STOPS && Normalize(text)[i] !in COMMA_MARKS
    ensures Normalize(Normalize(text)) == Normalize(text)
  {
  }

  /** The kind of boundary a cut was made at. */
  datatype Boundary = Colon | Comma | Space

  function Marker(b: Boundary): char {
    match b
    case Colon => ':'
    case Comma => ','
    case Space => ' '
  }

  /** A cut made after position `idx` of the remaining text. */
  datatype Cut = Cut(idx: nat, at: Boundary)

  /** A character the loop may cut after. */
  predicate IsBoundary(ch: char) {
    ch == ':' || ch == ',' || ch == ' '
  }

  /** The window of MAX_LENGTH characters starting at position `i` of `t` holds a boundary. */
  predicate WindowHasBoundary(t: string, i: nat) {
    exists k :: i <= k < i + MAX_LENGTH && k < |t| && IsBoundary(t[k])
  }

  /**
   * The choice among the three `else if` branches of the loop, made on
   * the window `modifiedText.prefix(MAX_LENGTH)` of an over-long text.
   */
  function FindCut(t: string): (c: Option<Cut>)
    requires |t| > MAX_LENGTH
    ensures c.Some? ==> c.value.idx < MAX_LENGTH && t[c.value.idx] == Marker(c.value.at)
  {
    match LastIndexBefore(t, ':', MAX_LENGTH)
    case Some(i) => Some(Cut(i, Colon))
    case None =>
      match LastIndexBefore(t, ',', MAX_LENGTH)
      case Some(i) => Some(Cut(i, Comma))
      case None =>
        match FirstIndexIn(t, ' ', 0, MAX_LENGTH)
        case Some(i) => Some(Cut(i, Space))
        case None => None
  }

  /** A cut is found exactly when the window holds a boundary. */
  lemma FindCutFinds(t: string)
    requires |t| > MAX_LENGTH
    ensures FindCut(t).Some? <==> WindowHasBoundary(t, 0)
  {
    if FindCut(t).Some? {
      assert IsBoundary(t[FindCut(t).value.idx]);
    } else {
      LastIndexBeforeIsLast(t, ':', MAX_LENGTH);
      LastIndexBeforeIsLast(t, ',', MAX_LENGTH);
      FirstIndexInIsFirst(t, ' ', 0, MAX_LENGTH);
    }
  }

  /**
   * Split priority: the rightmost ':' of the window wins; failing that
   * the rightmost ','; failing that the leftmost space.
   */
  lemma FindCutPriority(t: string)
    requires |t| > MAX_LENGTH
    ensures ':' in t[..MAX_LENGTH] ==>
      FindCut(t).Some? && FindCut(t).value.at == Colon &&
      forall k :: FindCut(t).value.idx < k < MAX_LENGTH ==> t[k] != ':'
    ensures ':' !in t[..MAX_LENGTH] && ',' in t[..MAX_LENGTH] ==>
      FindCut(t).Some? && FindCut(t).value.at == Comma &&
      forall k :: FindCut(t).value.idx < k < MAX_LENGTH ==> t[k] != ','
    ensures ':' !in t[..MAX_LENGTH] && ',' !in t[..MAX_LENGTH] && ' ' in t[..MAX_LENGTH] ==>
      FindCut(t).Some? && FindCut(t).value.at == Space &&
      forall k :: 0 <= k < FindCut(t).value.idx ==> t[k] != ' '
  {
    LastIndexBeforeIsLast(t, ':', MAX_LENGTH);
    LastIndexBeforeIsLast(t, ',', MAX_LENGTH);
    FirstIndexInIsFirst(t, ' ', 0, MAX_LENGTH);
  }

  /** A consumed prefix of the text; `pause` when it was cut at a space and gets a synthetic ','. */
  datatype Piece = Piece(raw: string, pause: bool)

  /** The chunk emitted for a piece. */
  function Emit(p: Piece): string {
    Trim(p.raw) + (if p.pause then "," else "")
  }

  function Emitted(ps: seq<Piece>): seq<string> {
    seq(|ps|, i requires 0 <= i < |ps| => Emit(ps[i]))
  }

  function Raws(ps: seq<Piece>): seq<string> {
    seq(|ps|, i requires 0 <= i < |ps| => ps[i].raw)
  }

  /** Each raw piece followed by its synthetic ',', if any. */
  function Restored(ps: seq<Piece>): seq<string> {
    seq(|ps|, i requires 0 <= i < |ps| => ps[i].raw + (if ps[i].pause then "," else ""))
  }

  /**
   * The pieces the loop consumes, in order, and the text left when it
   * stops; `rest` is non-empty exactly when no branch fires and the
   * source loop would spin on `rest` forever.
   */
  datatype Run = Run(pieces: seq<Piece>, rest: string)

  function Split(t: string): (r: Run)
    ensures |r.pieces| + |r.rest| <= |t|
    ensures r.rest != [] ==> MAX_LENGTH < |r.rest| <= |t|
    decreases |t|, 1
  {
    if |t| == 0 then Run([], "")
    else if |t| <= MAX_LENGTH then Run([Piece(t, false)], "")
    else
      match FindCut(t)
      case None => Run([], t)
      case Some(c) => SplitAt(t, c.idx, c.at == Space)
  }

  /** The run of `t` cut after position `i`: the piece up to the cut, then the run of what follows. */
  function SplitAt(t: string, i: nat, pause: bool): (r: Run)
    requires i < |t|
    ensures |r.pieces| + |r.rest| <= |t|
    ensures r.rest != [] ==> MAX_LENGTH < |r.rest| <= |t|
    decreases |t|, 0
  {
    var tail := Split(t[i + 1..]);
    Run([Piece(t[..i + 1], pause)] + tail.pieces, tail.rest)
  }

  /** What `tokenize` produces: its token list, or the tokens so far and the text it spins on. */
  datatype Tokens = Done(tokens: seq<string>) | Stuck(tokens: seq<string>, rest: string)

  /**
   * The tokens of `t` when the loop finishes; where it would spin, the
   * tokens so far and the over-long text it spins on. Each token takes
   * at least one character, so there are never more tokens than characters.
   */
  function Chunks(t: string): (r: Tokens)
    ensures |r.tokens| <= |t|
    ensures r.Stuck? ==> MAX_LENGTH < |r.rest| <= |t|
  {
    var r := Split(t);
    if r.rest == [] then Done(Emitted(r.pieces)) else Stuck(Emitted(r.pieces), r.rest)
  }

  /** A piece that fits, and that ends in a space when it carries a pause. */
  ghost predicate Fits(p: Piece) {
    0 < |p.raw| <= MAX_LENGTH && (p.pause ==> p.raw[|p.raw| - 1] == ' ')
  }

  /** A cut piece: it fits and ends at its boundary; only a space cut pauses. */
  ghost predicate IsCutPiece(p: Piece) {
    0 < |p.raw| <= MAX_LENGTH &&
    IsBoundary(p.raw[|p.raw| - 1]) &&
    (p.pause <==> p.raw[|p.raw| - 1] == ' ')
  }

  /**
   * Shape of a run: every piece fits, every piece but a final remainder
   * is a cut, and the loop only stops early on an over-long text whose
   * window holds no boundary.
   */
  ghost predicate WellShaped(r: Run) {
    (forall k :: 0 <= k < |r.pieces| ==> Fits(r.pieces[k])) &&
    (forall k :: 0 <= k < |r.pieces| && (k + 1 < |r.pieces| || r.rest != []) ==> IsCutPiece(r.pieces[k])) &&
    (r.rest != [] ==> |r.rest| > MAX_LENGTH && !WindowHasBoundary(r.rest, 0))
  }

  lemma WellShapedCons(p: Piece, r: Run)
    requires Fits(p) && IsCutPiece(p) && WellShaped(r)
    ensures WellShaped(Run([p] + r.pieces, r.rest))
  {
    var ps := [p] + r.pieces;
    assert forall k :: 1 <= k < |ps| ==> ps[k] == r.pieces[k - 1];
  }

  lemma {:induction false} SplitShape(t: string)
    ensures WellShaped(Split(t))
    decreases |t|, 1
  {
    if |t| > MAX_LENGTH {
      if FindCut(t).Some? {
        SplitShapeCut(t, FindCut(t).value);
      } else {
        FindCutFinds(t);
      }
    }
  }

  lemma {:induction false} SplitShapeCut(t: string, c: Cut)
    requires |t| > MAX_LENGTH && FindCut(t) == Some(c)
    ensures WellShaped(Split(t))
    decreases |t|, 0
  {
    SplitAtCut(t, c);
    SplitShape(t[c.idx + 1..]);
    WellShapedCons(Piece(t[..c.idx + 1], c.at == Space), Split(t[c.idx + 1..]));
  }

  /** Putting a piece in front of a run puts its raw text in front of what the run covers. */
  lemma CoversCons(p: Piece, r: Run)
    ensures Flatten(Raws([p] + r.pieces)) + r.rest == p.raw + (Flatten(Raws(r.pieces)) + r.rest)
  {
    assert Raws([p] + r.pieces) == [p.raw] + Raws(r.pieces);
    FlattenConcat([p.raw], Raws(r.pieces));
    FlattenSingle(p.raw);
  }

  /** The pieces followed by the rest give back the text, in order. */
  lemma {:induction false} SplitCovers(t: string)
    ensures Flatten(Raws(Split(t).pieces)) + Split(t).rest == t
    decreases |t|, 1
  {
    if 0 < |t| <= MAX_LENGTH {
      FlattenSingle(t);
    } else if |t| > MAX_LENGTH && FindCut(t).Some? {
      SplitCoversCut(t, FindCut(t).value);
    }
  }

  lemma {:induction false} SplitCoversCut(t: string, c: Cut)
    requires |t| > MAX_LENGTH && FindCut(t) == Some(c)
    ensures Flatten(Raws(Split(t).pieces)) + Split(t).rest == t
    decreases |t|, 0
  {
    var u := t[c.idx + 1..];
    SplitAtCut(t, c);
    SplitCovers(u);
    CoversCons(Piece(t[..c.idx + 1], c.at == Space), Split(u));
    TwoParts(t, c.idx + 1);
  }

  lemma FittingChunk(p: Piece)
    requires Fits(p)
    ensures |Emit(p)| <= MAX_LENGTH
  {
    if p.pause {
      TrimDropsTrailingWhitespace(p.raw);
    }
  }

  /** Every emitted chunk, space-cut ones included, has at most MAX_LENGTH characters. */
  lemma ChunksAreBounded(t: string)
    ensures forall k :: 0 <= k < |Chunks(t).tokens| ==> |Chunks(t).tokens[k]| <= MAX_LENGTH
  {
    var ps := Split(t).pieces;
    assert forall k :: 0 <= k < |ps| ==> Fits(ps[k]) by {
      SplitShape(t);
    }
    forall k | 0 <= k < |ps|
      ensures |Emitted(ps)[k]| <= MAX_LENGTH
    {
      FittingChunk(ps[k]);
    }
  }

  /** A cut chunk ends with the piece's own ':' or ',', or with the synthetic ',' of a space cut. */
  lemma CutChunkEndsWithBoundary(p: Piece)
    requires IsCutPiece(p)
    ensures |Emit(p)| > 0 && Emit(p)[|Emit(p)| - 1] in ":,"
    ensures Emit(p)[|Emit(p)| - 1] == if p.pause then ',' else p.raw[|p.raw| - 1]
  {
    if !p.pause {
      TrimKeepsLastCharacter(p.raw);
      assert Emit(p) == Trim(p.raw);
    }
  }

  /**
   * Every chunk produced by a cut ends with ':' or ',': the mark the cut
   * was made at for a ':' or ',' cut, the synthetic pause for a space cut.
   */
  lemma ChunksEndWithBoundary(t: string)
    ensures var c := Chunks(t);
      forall k :: 0 <= k < |c.tokens| && (k + 1 < |c.tokens| || c.Stuck?) ==>
        |c.tokens[k]| > 0 && c.tokens[k][|c.tokens[k]| - 1] in ":," &&
        c.tokens[k][|c.tokens[k]| - 1] ==
          if Split(t).pieces[k].pause then ','
          else Split(t).pieces[k].raw[|Split(t).pieces[k].raw| - 1]
  {
    var r := Split(t);
    SplitShape(t);
    EmittedEndWithBoundary(r.pieces, r.rest != []);
  }

  /** The chunks emitted for cut pieces end with the cut's mark or the synthetic pause. */
  lemma EmittedEndWithBoundary(ps: seq<Piece>, stuck: bool)
    requires forall k :: 0 <= k < |ps| && (k + 1 < |ps| || stuck) ==> IsCutPiece(ps[k])
    ensures forall k :: 0 <= k < |ps| && (k + 1 < |ps| || stuck) ==>
      |Emitted(ps)[k]| > 0 && Emitted(ps)[k][|Emitted(ps)[k]| - 1] in ":," &&
      Emitted(ps)[k][|Emitted(ps)[k]| - 1] == if ps[k].pause then ',' else ps[k].raw[|ps[k].raw| - 1]
  {
    forall k | 0 <= k < |ps| && (k + 1 < |ps| || stuck)
      ensures |Emitted(ps)[k]| > 0 && Emitted(ps)[k][|Emitted(ps)[k]| - 1] in ":,"
      ensures Emitted(ps)[k][|Emitted(ps)[k]| - 1] ==
        if ps[k].pause then ',' else ps[k].raw[|ps[k].raw| - 1]
    {
      CutChunkEndsWithBoundary(ps[k]);
    }
  }

  lemma VisibleOfEmit(p: Piece)
    ensures Visible(Emit(p)) == Visible(p.raw + (if p.pause then "," else ""))
  {
    var mark: string := if p.pause then "," else "";
    VisibleConcat(Trim(p.raw), mark);
    VisibleConcat(p.raw, mark);
    TrimKeepsVisible(p.raw);
  }

  lemma {:induction false} EmittedKeepsVisible(ps: seq<Piece>)
    ensures Visible(Flatten(Emitted(ps))) == Visible(Flatten(Restored(ps)))
    decreases |ps|
  {
    if |ps| > 0 {
      var n := |ps| - 1;
      var p := ps[n];
      assert Emitted(ps)[..n] == Emitted(ps[..n]);
      assert Restored(ps)[..n] == Restored(ps[..n]);
      EmittedKeepsVisible(ps[..n]);
      VisibleConcat(Flatten(Emitted(ps[..n])), Emit(p));
      VisibleConcat(Flatten(Restored(ps[..n])), p.raw + (if p.pause then "," else ""));
      VisibleOfEmit(p);
    }
  }

  /**
   * Content preservation: the chunks hold exactly the non-whitespace
   * characters of the consumed pieces, in order, plus one ',' after each
   * space cut (the pieces themselves make up the text: SplitCovers).
   */
  lemma ChunksKeepVisible(t: string)
    ensures Visible(Flatten(Chunks(t).tokens)) == Visible(Flatten(Restored(Split(t).pieces)))
  {
    EmittedKeepsVisible(Split(t).pieces);
  }

  /** With no space cut, the chunks and the rest hold exactly the non-whitespace characters of the text, in order. */
  lemma ChunksKeepText(t: string)
    requires forall k :: 0 <= k < |Split(t).pieces| ==> !Split(t).pieces[k].pause
    ensures Visible(Flatten(Chunks(t).tokens)) + Visible(Split(t).rest) == Visible(t)
  {
    var r := Split(t);
    ChunksKeepVisible(t);
    forall k | 0 <= k < |r.pieces|
      ensures Restored(r.pieces)[k] == Raws(r.pieces)[k]
    {
      assert r.pieces[k].raw + "" == r.pieces[k].raw;
    }
    assert Restored(r.pieces) == Raws(r.pieces);
    SplitCovers(t);
    VisibleConcat(Flatten(Raws(r.pieces)), r.rest);
  }

  /** Every over-long remainder of the text has a boundary in its window. */
  ghost predicate BreaksEverywhere(t: string) {
    forall i :: 0 <= i && i + MAX_LENGTH < |t| ==> WindowHasBoundary(t, i)
  }

  lemma BreaksEverywhereAfter(t: string, n: nat)
    requires n <= |t| && BreaksEverywhere(t)
    ensures BreaksEverywhere(t[n..])
  {
    var u := t[n..];
    forall i | 0 <= i && i + MAX_LENGTH < |u|
      ensures WindowHasBoundary(u, i)
    {
      assert WindowHasBoundary(t, n + i);
      var k :| n + i <= k < n + i + MAX_LENGTH && k < |t| && IsBoundary(t[k]);
      assert u[k - n] == t[k];
    }
  }

  /** Termination: when every over-long remainder has a boundary in its window, the loop finishes. */
  lemma {:induction false} NeverStuck(t: string)
    requires BreaksEverywhere(t)
    ensures Chunks(t).Done?
    decreases |t|
  {
    if |t| > MAX_LENGTH {
      assert WindowHasBoundary(t, 0);
      FindCutFinds(t);
      var c := FindCut(t).value;
      SplitAtCut(t, c);
      BreaksEverywhereAfter(t, c.idx + 1);
      NeverStuck(t[c.idx + 1..]);
    }
  }

  /** Without any boundary in the window of an over-long text, nothing is emitted and the loop spins on the whole text. */
  lemma UnbreakableTextSpins(t: string)
    requires |t| > MAX_LENGTH && !WindowHasBoundary(t, 0)
    ensures Chunks(t) == Stuck([], t)
  {
    FindCutFinds(t);
  }

  /** Empty input yields no chunk; 1..MAX_LENGTH characters yield their trim as the only chunk, even when blank. */
  lemma ShortText(t: string)
    ensures |t| == 0 ==> Chunks(t) == Done([])
    ensures 0 < |t| <= MAX_LENGTH ==> Chunks(t) == Done([Trim(t)])
  {
    if 0 < |t| <= MAX_LENGTH {
      assert Emit(Piece(t, false)) == Trim(t);
      assert Emitted([Piece(t, false)]) == [Trim(t)];
    }
  }

  /** Blank chunks are not filtered: a short blank text gives one empty chunk. */
  lemma BlankTextGivesEmptyChunk(t: string)
    requires 0 < |t| <= MAX_LENGTH
    requires forall k :: 0 <= k < |t| ==> IsWhitespace(t[k])
    ensures Chunks(t) == Done([""])
  {
    ShortText(t);
    TrimOfWhitespace(t);
  }

  /** An over-long remainder starting with a space and without ':' or ',' in its window yields the chunk ",". */
  lemma LeadingSpaceGivesLoneComma(t: string)
    requires |t| > MAX_LENGTH && t[0] == ' '
    requires forall k :: 0 <= k < MAX_LENGTH ==> t[k] != ':' && t[k] != ','
    ensures |Chunks(t).tokens| > 0 && Chunks(t).tokens[0] == ","
  {
    assert FindCut(t) == Some(Cut(0, Space));
    SplitAtCut(t, Cut(0, Space));
    assert t[..1] == " ";
    assert Trim(" ") == "" by {
      TrimOfWhitespace(" ");
    }
    assert Emit(Piece(" ", true)) == ",";
  }

  lemma SplitAtCut(t: string, c: Cut)
    requires |t| > MAX_LENGTH && FindCut(t) == Some(c)
    ensures c.idx < |t|
    ensures Split(t) == Run([Piece(t[..c.idx + 1], c.at == Space)] + Split(t[c.idx + 1..]).pieces,
                            Split(t[c.idx + 1..]).rest)
  {
  }

  lemma EmittedSnoc(ps: seq<Piece>, p: Piece)
    ensures Emitted(ps + [p]) == Emitted(ps) + [Emit(p)]
  {
  }

  /** The pieces consumed so far followed by the run of the remaining text `t` make up the run of `full`. */
  ghost predicate Resumes(full: string, pieces: seq<Piece>, t: string) {
    Split(full) == Run(pieces + Split(t).pieces, Split(t).rest)
  }

  /** A remainder that fits is the last piece, emitted as its trim. */
  lemma LastStep(full: string, pieces: seq<Piece>, t: string)
    requires 0 < |t| <= MAX_LENGTH && Resumes(full, pieces, t)
    ensures Chunks(full) == Done(Emitted(pieces) + [Trim(t)])
  {
    var p := Piece(t, false);
    EmittedSnoc(pieces, p);
    assert Split(t) == Run([p], "");
    assert Emit(p) == Trim(t);
  }

  /** A cut consumes the piece up to and including its boundary; the loop resumes after it. */
  lemma CutStep(full: string, pieces: seq<Piece>, t: string, cut: Cut)
    requires |t| > MAX_LENGTH && FindCut(t) == Some(cut) && Resumes(full, pieces, t)
    ensures cut.idx < |t|
    ensures Resumes(full, pieces + [Piece(t[..cut.idx + 1], cut.at == Space)], t[cut.idx + 1..])
    ensures Emitted(pieces + [Piece(t[..cut.idx + 1], cut.at == Space)]) ==
            Emitted(pieces) + [Emit(Piece(t[..cut.idx + 1], cut.at == Space))]
  {
    var piece := Piece(t[..cut.idx + 1], cut.at == Space);
    SplitAtCut(t, cut);
    var tail := Split(t[cut.idx + 1..]);
    assert pieces + ([piece] + tail.pieces) == (pieces + [piece]) + tail.pieces;
    EmittedSnoc(pieces, piece);
  }

  /** Where no branch fires, the tokens so far are final and the loop spins on `t`. */
  lemma StuckStep(full: string, pieces: seq<Piece>, t: string)
    requires |t| > MAX_LENGTH && FindCut(t).None? && Resumes(full, pieces, t)
    ensures Chunks(full) == Stuck(Emitted(pieces), t)
  {
    assert Split(t) == Run([], t);
    assert pieces + [] == pieces;
  }

  /** An exhausted remainder leaves the tokens so far as the result. */
  lemma EmptyStep(full: string, pieces: seq<Piece>, t: string)
    requires |t| == 0 && Resumes(full, pieces, t)
    ensures Chunks(full) == Done(Emitted(pieces))
  {
    assert Split(t) == Run([], "");
    assert pieces + [] == pieces;
  }

  /**
   * `tokenize(text:)`: normalise, then emit chunks until the text is used
   * up. Where the source would loop forever because no branch fires, the
   * method stops and reports `Stuck` with the text it would spin on.
   */
  method Tokenize(text: string) returns (result: Tokens)
    ensures result == Chunks(Normalize(text))
    ensures forall k :: 0 <= k < |result.tokens| ==> |result.tokens[k]| <= MAX_LENGTH
    ensures |text| == 0 ==> result == Done([])
    ensures 0 < |text| <= MAX_LENGTH ==> result == Done([Trim(Normalize(text))])
  {
    var tokens: seq<string> := [];
    var modifiedText := Normalize(text);
    ghost var full := modifiedText;
    ghost var pieces: seq<Piece> := [];
    ChunksAreBounded(full);
    ShortText(full);
    while |modifiedText| > 0
      invariant Resumes(full, pieces, modifiedText)
      invariant tokens == Emitted(pieces)
      decreases |modifiedText|
    {
      if |modifiedText| <= MAX_LENGTH {
        // the remainder fits: emit it trimmed and stop
        LastStep(full, pieces, modifiedText);
        tokens := tokens + [Trim(modifiedText)];
        return Done(tokens);
      }
      var cut: Cut;
      match LastIndexBefore(modifiedText, ':', MAX_LENGTH) {
        case Some(i) =>
          cut := Cut(i, Colon);
        case None =>
          match LastIndexBefore(modifiedText, ',', MAX_LENGTH) {
            case Some(i) =>
              cut := Cut(i, Comma);
            case None =>
              match FirstIndexIn(modifiedText, ' ', 0, MAX_LENGTH) {
                case Some(i) =>
                  cut := Cut(i, Space);
                case None =>
                  // no branch of the source fires: it would spin here forever
                  StuckStep(full, pieces, modifiedText);
                  return Stuck(tokens, modifiedText);
              }
          }
      }
      assert FindCut(modifiedText) == Some(cut);
      // the trimmed prefix up to and including the boundary, plus ',' after a space cut
      var piece := Piece(modifiedText[..cut.idx + 1], cut.at == Space);
      CutStep(full, pieces, modifiedText, cut);
      tokens := tokens + [Emit(piece)];
      pieces := pieces + [piece];
      modifiedText := modifiedText[cut.idx + 1..];
    }
    EmptyStep(full, pieces, modifiedText);
    result := Done(tokens);
  }
}
