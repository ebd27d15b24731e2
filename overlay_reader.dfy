/**
 * The overlay file: lines such as `0x123: 0x12, 0x14, 0x15` map a fake
 * line type to the list of real types that replace it.  readOverlays reads
 * the lines (given here as a sequence of already-read lines) into a map,
 * and addLine fans one line out into a line per replacement type.
 */
module Overlays {
  import opened JavaInt
  import opened Wrappers
  import opened JavaDecode
  import opened Elements

  /** The syntax errors reading reports: a key that is not a number, and a replacement that is not one. */
  datatype SyntaxError = ExpectingNumber | NumberListExpected

  // ---------------------------------------------------------------------
  // One line
  // ---------------------------------------------------------------------

  /** line.indexOf('#') and substring: the text before the first '#', or the whole line when it has none. */
  function StripComment(line: string): (r: string)
    ensures r <= line && '#' !in r
    ensures '#' in line ==> |r| < |line| && line[|r|] == '#'
    ensures '#' !in line ==> r == line
  {
    if line == [] || line[0] == '#' then [] else [line[0]] + StripComment(line[1..])
  }

  /** Whatever follows a '#' is ignored. */
  lemma {:induction false} CommentIgnored(a: string, b: string)
    ensures StripComment(a + "#" + b) == StripComment(a)
  {
    if a != [] && a[0] != '#' {
      assert (a + "#" + b)[1..] == a[1..] + "#" + b;
      CommentIgnored(a[1..], b);
    }
  }

  /** line.split(":", 2): the text before the first ':' and the text after it; None when there is no ':'. */
  function SplitFirstColon(line: string): (r: Option<(string, string)>)
    ensures r.None? <==> ':' !in line
    ensures r.Some? ==> r.value.0 + ":" + r.value.1 == line && ':' !in r.value.0
  {
    if line == [] then None
    else if line[0] == ':' then Some(([], line[1..]))
    else
      match SplitFirstColon(line[1..])
      case None => None
      case Some((a, b)) => Some(([line[0]] + a, b))
  }

  /** The split is at the first ':': a key without ':' followed by ':' and any rest splits back into the two. */
  lemma {:induction false} SplitAtFirst(a: string, b: string)
    requires ':' !in a
    ensures SplitFirstColon(a + ":" + b) == Some((a, b))
  {
    if a != [] {
      assert (a + ":" + b)[1..] == a[1..] + ":" + b;
      SplitAtFirst(a[1..], b);
      assert [a[0]] + a[1..] == a;
    } else {
      assert (a + ":" + b)[1..] == b;
    }
  }

  /** The characters line.split("[ ,]") cuts at. */
  predicate IsSeparator(c: char)
  {
    c == ' ' || c == ','
  }

  /** A text without spaces or commas. */
  predicate Plain(t: string)
  {
    forall i :: 0 <= i < |t| ==> !IsSeparator(t[i])
  }

  /** The pieces line.split("[ ,]") cuts a text into at every space and comma, empty pieces included. */
  function Pieces(s: string): (ps: seq<string>)
    ensures |ps| >= 1
  {
    if s == [] then [""]
    else
      var ps := Pieces(s[..|s| - 1]);
      var c := s[|s| - 1];
      if IsSeparator(c) then ps + [""] else ps[..|ps| - 1] + [ps[|ps| - 1] + [c]]
  }

  /** The pieces without the empty ones, in order: the ones readReplacements does not skip. */
  function NonEmpty(ps: seq<string>): seq<string>
  {
    if ps == [] then []
    else NonEmpty(ps[..|ps| - 1]) + (if ps[|ps| - 1] == "" then [] else [ps[|ps| - 1]])
  }

  /** The tokens of a replacement list. */
  function Tokens(s: string): seq<string>
  {
    NonEmpty(Pieces(s))
  }

  /** Every piece is free of separators. */
  lemma {:induction false} PiecesPlain(s: string)
    ensures forall k :: 0 <= k < |Pieces(s)| ==> Plain(Pieces(s)[k])
  {
    if s != [] {
      PiecesPlain(s[..|s| - 1]);
    }
  }

  /** Every token is nonempty and free of separators. */
  lemma {:induction false} NonEmptyTokens(ps: seq<string>)
    requires forall k :: 0 <= k < |ps| ==> Plain(ps[k])
    ensures forall k :: 0 <= k < |NonEmpty(ps)| ==> NonEmpty(ps)[k] != "" && Plain(NonEmpty(ps)[k])
  {
    if ps != [] {
      NonEmptyTokens(ps[..|ps| - 1]);
    }
  }

  /** A trailing separator adds only an empty piece, so repeated separators add no token. */
  lemma TokensSeparator(s: string, c: char)
    requires IsSeparator(c)
    ensures Tokens(s + [c]) == Tokens(s)
  {
    assert (s + [c])[..|s|] == s;
  }

  /** Text without separators extends the last piece. */
  lemma {:induction false} PiecesExtend(s: string, w: string)
    requires Plain(w)
    ensures Pieces(s + w) == Pieces(s)[..|Pieces(s)| - 1] + [Pieces(s)[|Pieces(s)| - 1] + w]
    decreases |w|
  {
    if w == [] {
      assert s + w == s;
      assert Pieces(s)[|Pieces(s)| - 1] + w == Pieces(s)[|Pieces(s)| - 1];
      assert Pieces(s)[..|Pieces(s)| - 1] + [Pieces(s)[|Pieces(s)| - 1]] == Pieces(s);
    } else {
      var w' := w[..|w| - 1];
      var c := w[|w| - 1];
      assert Plain(w') by {
        forall i | 0 <= i < |w'| ensures !IsSeparator(w'[i]) {
          assert w'[i] == w[i];
        }
      }
      assert (s + w)[..|s + w| - 1] == s + w';
      assert (s + w)[|s + w| - 1] == c;
      assert !IsSeparator(c);
      PiecesExtend(s, w');
      var p := Pieces(s);
      var q := Pieces(s + w');
      assert q[..|q| - 1] == p[..|p| - 1];
      assert q[|q| - 1] == p[|p| - 1] + w';
      assert p[|p| - 1] + w' + [c] == p[|p| - 1] + w;
      assert Pieces(s + w) == q[..|q| - 1] + [q[|q| - 1] + [c]];
    }
  }

  /** The texts joined with commas between them. */
  function Join(ts: seq<string>): string
  {
    if ts == [] then ""
    else if |ts| == 1 then ts[0]
    else Join(ts[..|ts| - 1]) + "," + ts[|ts| - 1]
  }

  /** Splitting a comma-joined list of separator-free texts gives the texts back. */
  lemma {:induction false} PiecesJoin(ts: seq<string>)
    requires |ts| >= 1 && forall k :: 0 <= k < |ts| ==> Plain(ts[k])
    ensures Pieces(Join(ts)) == ts
  {
    if |ts| == 1 {
      PiecesExtend("", ts[0]);
      assert "" + ts[0] == ts[0];
    } else {
      var ts' := ts[..|ts| - 1];
      PiecesJoin(ts');
      PiecesAfterComma(Join(ts'), ts', ts[|ts| - 1]);
      assert ts' + [ts[|ts| - 1]] == ts;
    }
  }

  /** A comma starts a new piece, which text without separators then fills. */
  lemma PiecesAfterComma(x: string, ps: seq<string>, w: string)
    requires Pieces(x) == ps && Plain(w)
    ensures Pieces(x + "," + w) == ps + [w]
  {
    var j := x + ",";
    assert j[..|j| - 1] == x;
    assert Pieces(j) == ps + [""];
    PiecesExtend(j, w);
    assert (ps + [""])[..|ps|] == ps;
    assert "" + w == w;
  }

  /** Dropping empty pieces keeps a list without any. */
  lemma {:induction false} NonEmptyKeeps(ts: seq<string>)
    requires forall k :: 0 <= k < |ts| ==> ts[k] != ""
    ensures NonEmpty(ts) == ts
  {
    if ts != [] {
      NonEmptyKeeps(ts[..|ts| - 1]);
    }
  }

  /** A list of tokens written with commas between them tokenises back to itself. */
  lemma TokensJoin(ts: seq<string>)
    requires forall k :: 0 <= k < |ts| ==> ts[k] != "" && Plain(ts[k])
    ensures Tokens(Join(ts)) == ts
  {
    if ts != [] {
      PiecesJoin(ts);
      NonEmptyKeeps(ts);
    }
  }

  /**
   * readReplacements' result for its tokens: their values in order when
   * every one decodes, else the error for a list of numbers.
   */
  function DecodeAll(ts: seq<string>): (r: Result<seq<int32>, SyntaxError>)
    ensures r.Ok? <==> forall i :: 0 <= i < |ts| ==> Decode(ts[i]).Some?
    ensures r.Ok? ==> |r.value| == |ts| && forall i :: 0 <= i < |ts| ==> Decode(ts[i]) == Some(r.value[i])
    ensures r.Err? ==> r.error == NumberListExpected
  {
    if ts == [] then Ok([])
    else
      match DecodeAll(ts[..|ts| - 1])
      case Err(e) => Err(e)
      case Ok(vs) =>
        match Decode(ts[|ts| - 1])
        case None => Err(NumberListExpected)
        case Some(v) => Ok(vs + [v])
  }

  /** The replacement list of the text after the ':'. */
  function Replacements(text: string): Result<seq<int32>, SyntaxError>
  {
    DecodeAll(Tokens(text))
  }

  /** What one line contributes: nothing (no ':'), an entry, or a syntax error. */
  datatype LineResult = NoEntry | Entry(key: int32, types: seq<int32>) | Bad(error: SyntaxError)

  /** The effect of one line of readOverlays' loop. */
  function ParseLine(line: string): (r: LineResult)
    ensures r.NoEntry? <==> ':' !in StripComment(line)
  {
    match SplitFirstColon(StripComment(line))
    case None => NoEntry
    case Some((k, rest)) =>
      match Decode(k)
      case None => Bad(ExpectingNumber)
      case Some(key) =>
        match Replacements(rest)
        case Err(e) => Bad(e)
        case Ok(ts) => Entry(key, ts)
  }

  /** A line as overlay files write it: the key in hex, ':', and the types in hex separated by commas. */
  function FormatLine(key: int32, types: seq<int32>): string
  {
    ToHex(key) + ":" + Join(seq(|types|, i requires 0 <= i < |types| => ToHex(types[i])))
  }

  /** A hex numeral holds no '#', ':', space or comma. */
  lemma HexPlain(n: int32)
    ensures Plain(ToHex(n)) && ToHex(n) != "" && '#' !in ToHex(n) && ':' !in ToHex(n)
  {
    var m: nat := if n < 0 then 0 - n as int else n;
    DigitsValue(m, 16);
    var d := Digits(m, 16);
    assert forall i :: 0 <= i < |d| ==> d[i] != '#' && d[i] != ':' && !IsSeparator(d[i]) by {
      forall i | 0 <= i < |d| ensures d[i] != '#' && d[i] != ':' && !IsSeparator(d[i]) {
        assert DigitValue(d[i], 16).Some?;
      }
    }
    var s := ToHex(n);
    var p := if n < 0 then "-0x" else "0x";
    assert s == p + d;
    forall i | 0 <= i < |s| ensures s[i] != '#' && s[i] != ':' && !IsSeparator(s[i]) {
      if i >= |p| {
        assert s[i] == d[i - |p|];
      }
    }
  }

  /** A list of types in hex reads back as the list. */
  lemma {:induction false} DecodeAllHex(types: seq<int32>)
    ensures DecodeAll(seq(|types|, i requires 0 <= i < |types| => ToHex(types[i]))) == Ok(types)
  {
    var hs := seq(|types|, i requires 0 <= i < |types| => ToHex(types[i]));
    forall i | 0 <= i < |types| ensures Decode(hs[i]) == Some(types[i]) {
      DecodeHex(types[i]);
    }
    var r := DecodeAll(hs);
    assert r.value == types;
  }

  /** A line FormatLine writes parses back to its entry. */
  lemma ParseFormatLine(key: int32, types: seq<int32>)
    ensures ParseLine(FormatLine(key, types)) == Entry(key, types)
  {
    var hs := seq(|types|, i requires 0 <= i < |types| => ToHex(types[i]));
    var line := FormatLine(key, types);
    HexPlain(key);
    forall k | 0 <= k < |hs| ensures hs[k] != "" && Plain(hs[k]) && '#' !in hs[k] {
      HexPlain(types[k]);
    }
    assert '#' !in Join(hs) by {
      JoinHasNo(hs, '#');
    }
    assert '#' !in line;
    SplitAtFirst(ToHex(key), Join(hs));
    DecodeHex(key);
    TokensJoin(hs);
    DecodeAllHex(types);
  }

  /** Joining texts without c, with commas, gives a text without c (c not a comma). */
  lemma {:induction false} JoinHasNo(ts: seq<string>, c: char)
    requires c != ',' && forall k :: 0 <= k < |ts| ==> c !in ts[k]
    ensures c !in Join(ts)
  {
    if |ts| > 1 {
      JoinHasNo(ts[..|ts| - 1], c);
    }
  }

  // ---------------------------------------------------------------------
  // The whole file
  // ---------------------------------------------------------------------

  /** The map after reading some lines, and the error that stopped the reading, if one did. */
  datatype Read = Read(overlays: map<int, seq<int32>>, error: Option<SyntaxError>)

  /** readOverlays over lines, starting from map m: each entry replaces the key's mapping; the first bad line stops it. */
  function ReadLines(m: map<int, seq<int32>>, lines: seq<string>): Read
  {
    if lines == [] then Read(m, None)
    else
      var r := ReadLines(m, lines[..|lines| - 1]);
      if r.error.Some? then r
      else
        match ParseLine(lines[|lines| - 1])
        case NoEntry => r
        case Entry(k, ts) => Read(r.overlays[k := ts], None)
        case Bad(e) => Read(r.overlays, Some(e))
  }

  /** Reading a + b is reading b after a, unless a already stopped at an error. */
  lemma {:induction false} ReadLinesAppend(m: map<int, seq<int32>>, a: seq<string>, b: seq<string>)
    ensures ReadLines(m, a + b)
         == (if ReadLines(m, a).error.Some? then ReadLines(m, a) else ReadLines(ReadLines(m, a).overlays, b))
    decreases |b|
  {
    if b == [] {
      assert a + b == a;
    } else {
      var b' := b[..|b| - 1];
      assert (a + b)[..|a + b| - 1] == a + b';
      assert (a + b)[|a + b| - 1] == b[|b| - 1];
      ReadLinesAppend(m, a, b');
    }
  }

  /** The types the last line with key k maps it to, if any line does. */
  function LastEntry(lines: seq<string>, k: int): Option<seq<int32>>
  {
    if lines == [] then None
    else
      var p := ParseLine(lines[|lines| - 1]);
      if p.Entry? && p.key == k then Some(p.types) else LastEntry(lines[..|lines| - 1], k)
  }

  /**
   * A file read without error maps each key to the types of the last line
   * for it (a later line replaces an earlier one); keys no line names keep
   * what they had.
   */
  lemma {:induction false} ReadLinesLast(m: map<int, seq<int32>>, lines: seq<string>, k: int)
    requires ReadLines(m, lines).error.None?
    ensures LastEntry(lines, k).Some? ==>
              k in ReadLines(m, lines).overlays && ReadLines(m, lines).overlays[k] == LastEntry(lines, k).value
    ensures LastEntry(lines, k).None? ==>
              (k in ReadLines(m, lines).overlays <==> k in m)
              && (k in m ==> ReadLines(m, lines).overlays[k] == m[k])
  {
    if lines != [] {
      ReadLinesLast(m, lines[..|lines| - 1], k);
    }
  }

  /** The first bad line stops the reading: what was read before it stays, and its error is reported. */
  lemma {:induction false} ReadLinesStops(m: map<int, seq<int32>>, lines: seq<string>, i: nat)
    requires i < |lines| && ParseLine(lines[i]).Bad?
    requires ReadLines(m, lines[..i]).error.None?
    ensures ReadLines(m, lines) == Read(ReadLines(m, lines[..i]).overlays, Some(ParseLine(lines[i]).error))
  {
    assert lines[..i + 1][..i] == lines[..i];
    ReadLinesStopped(m, lines, i + 1);
  }

  /** Once a prefix stopped at an error, the rest of the lines change nothing. */
  lemma {:induction false} ReadLinesStopped(m: map<int, seq<int32>>, lines: seq<string>, i: nat)
    requires i <= |lines| && ReadLines(m, lines[..i]).error.Some?
    ensures ReadLines(m, lines) == ReadLines(m, lines[..i])
    decreases |lines|
  {
    if i < |lines| {
      var front := lines[..|lines| - 1];
      assert front[..i] == lines[..i];
      ReadLinesStopped(m, front, i);
    } else {
      assert lines[..i] == lines;
    }
  }

  /** readReplacements: decodes the nonempty pieces of the text in order; the first that is no number fails it. */
  method ReadReplacements(text: string) returns (r: Result<seq<int32>, SyntaxError>)
    ensures r == Replacements(text)
  {
    var nums := Pieces(text);
    var l: seq<int32> := [];
    for i := 0 to |nums|
      invariant DecodeAll(NonEmpty(nums[..i])) == Ok(l)
    {
      NonEmptyStep(nums, i);
      var n := nums[i];
      if n == "" {
        assert NonEmpty(nums[..i + 1]) == NonEmpty(nums[..i]);
        assert DecodeAll(NonEmpty(nums[..i + 1])) == Ok(l);
        continue;
      }
      var v := Decode(n);
      if v.None? {
        NonEmptyHas(nums, i);
        return Err(NumberListExpected);
      }
      DecodeAllStep(NonEmpty(nums[..i]), n, l, v.value);
      assert NonEmpty(nums[..i + 1]) == NonEmpty(nums[..i]) + [n];
      l := l + [v.value];
      assert DecodeAll(NonEmpty(nums[..i + 1])) == Ok(l);
    }
    assert nums[..|nums|] == nums;
    return Ok(l);
  }

  /** Dropping the empty pieces of one piece more. */
  lemma NonEmptyStep(ps: seq<string>, i: nat)
    requires i < |ps|
    ensures NonEmpty(ps[..i + 1]) == NonEmpty(ps[..i]) + (if ps[i] == "" then [] else [ps[i]])
  {
    assert ps[..i + 1][..i] == ps[..i];
  }

  /** Decoding one token more. */
  lemma DecodeAllStep(ts: seq<string>, t: string, vs: seq<int32>, v: int32)
    requires DecodeAll(ts) == Ok(vs) && Decode(t) == Some(v)
    ensures DecodeAll(ts + [t]) == Ok(vs + [v])
  {
    assert (ts + [t])[..|ts|] == ts;
  }

  /** A nonempty piece is one of the tokens. */
  lemma {:induction false} NonEmptyHas(ps: seq<string>, i: nat)
    requires i < |ps| && ps[i] != ""
    ensures exists j :: 0 <= j < |NonEmpty(ps)| && NonEmpty(ps)[j] == ps[i]
  {
    var ps' := ps[..|ps| - 1];
    if i < |ps| - 1 {
      NonEmptyHas(ps', i);
      var j :| 0 <= j < |NonEmpty(ps')| && NonEmpty(ps')[j] == ps'[i];
      assert NonEmpty(ps)[j] == NonEmpty(ps')[j];
    } else {
      assert NonEmpty(ps)[|NonEmpty(ps')|] == ps[i];
    }
  }

  /** The body of readOverlays' loop for one line: strip the comment, split at ':', decode the key and the list. */
  method ReadLine(text: string) returns (p: LineResult)
    ensures p == ParseLine(text)
  {
    var line := StripComment(text);
    var fields := SplitFirstColon(line);
    if fields.None? {
      return NoEntry;
    }
    var key := Decode(fields.value.0);
    if key.None? {
      return Bad(ExpectingNumber);
    }
    var l := ReadReplacements(fields.value.1);
    if l.Err? {
      return Bad(l.error);
    }
    return Entry(key.value, l.value);
  }

  /** The failure of addLine: an overlay with an empty list (integerList.get(0)). */
  datatype IndexOutOfBounds = IndexOutOfBounds

  /** The overlay reader: the map from fake line types to their replacement types. */
  class OverlayReader {
    var overlays: map<int, seq<int32>>

    constructor ()
      ensures overlays == map[]
    {
      overlays := map[];
    }

    /** readOverlays: reads the lines into the map, stopping at the first syntax error. */
    method ReadOverlays(lines: seq<string>) returns (r: Result<(), SyntaxError>)
      modifies this
      ensures overlays == ReadLines(old(overlays), lines).overlays
      ensures r.Err? <==> ReadLines(old(overlays), lines).error.Some?
      ensures r.Err? ==> r.error == ReadLines(old(overlays), lines).error.value
    {
      ghost var m0 := overlays;
      for i := 0 to |lines|
        invariant ReadLines(m0, lines[..i]) == Read(overlays, None)
      {
        assert lines[..i + 1][..i] == lines[..i];
        var p := ReadLine(lines[i]);
        if p.Bad? {
          ReadLinesStopped(m0, lines, i + 1);
          return Err(p.error);
        }
        if p.Entry? {
          overlays := overlays[p.key := p.types];
        }
      }
      assert lines[..|lines|] == lines;
      return Ok(());
    }

    /**
     * addLine: a line whose type has an overlay becomes one line per
     * replacement type, in order: first a copy sharing its points, then
     * plain lines (never roads) with copies of the points.  Any other line
     * is added unchanged.
     */
    method AddLine(line: MapLine, adder: LineAdder) returns (r: Result<(), IndexOutOfBounds>)
      modifies adder
      ensures line.kind !in overlays ==> r.Ok? && adder.added == old(adder.added) + [line]
      ensures line.kind in overlays && overlays[line.kind] == [] ==> r.Err? && adder.added == old(adder.added)
      ensures line.kind in overlays && overlays[line.kind] != [] ==>
                && r.Ok? && |adder.added| == |old(adder.added)| + |overlays[line.kind]|
                && adder.added[..|old(adder.added)|] == old(adder.added)
                && (forall i :: |old(adder.added)| <= i < |adder.added| ==>
                      fresh(adder.added[i]) && OverlayOf(adder.added[i], line, overlays[line.kind][i - |old(adder.added)|]))
                && adder.added[|old(adder.added)|].isRoad == line.isRoad
                && adder.added[|old(adder.added)|].points == line.points
                && (forall i :: |old(adder.added)| < i < |adder.added| ==>
                      fresh(adder.added[i].points) && !adder.added[i].isRoad)
    {
      if line.kind !in overlays {
        adder.Add(line);
        return Ok(());
      }
      var integerList := overlays[line.kind];
      var newline := line.Copy();
      if |integerList| == 0 {
        return Err(IndexOutOfBounds);
      }
      newline.SetType(integerList[0]);
      var points := line.points;
      newline.SetPoints(points);
      adder.Add(newline);
      AddPlainCopies(line, integerList, adder);
      return Ok(());
    }
  }

  /** The line nl stands for line with type kind: same resolutions, same points. */
  ghost predicate OverlayOf(nl: MapLine, line: MapLine, kind: int)
    reads nl, nl.points, line, line.points
  {
    && nl.kind == kind
    && nl.minResolution == line.minResolution && nl.maxResolution == line.maxResolution
    && nl.points.items == line.points.items
  }

  /** addLine's loop: a plain line with a copy of the points for each type after the first. */
  method AddPlainCopies(line: MapLine, types: seq<int32>, adder: LineAdder)
    requires types != []
    modifies adder
    ensures |adder.added| == |old(adder.added)| + |types| - 1
    ensures adder.added[..|old(adder.added)|] == old(adder.added)
    ensures forall i :: |old(adder.added)| <= i < |adder.added| ==>
              && fresh(adder.added[i]) && fresh(adder.added[i].points) && !adder.added[i].isRoad
              && OverlayOf(adder.added[i], line, types[i - |old(adder.added)| + 1])
  {
    ghost var start := |adder.added|;
    for t := 1 to |types|
      invariant |adder.added| == start + t - 1 && adder.added[..start] == old(adder.added)
      invariant forall i :: start <= i < |adder.added| ==>
                  && fresh(adder.added[i]) && fresh(adder.added[i].points) && !adder.added[i].isRoad
                  && OverlayOf(adder.added[i], line, types[i - start + 1])
    {
      var newline := line.AsPlainLine();
      newline.SetType(types[t]);
      var copy := new PointList(line.points.items);
      newline.SetPoints(copy);
      adder.Add(newline);
    }
  }
}
