/** `JsonPathFinder`: a dotted path such as `0.name` is split into segments and
    walked from a container, through map keys and list indices. */
module JsonPathFinder {

  import opened Wrappers
  import opened JsonModel
  import DecimalText
  import JsonList
  import JsonMap

  // ---- splitting: PATH_SEPARATOR = (?<!\\)\. with Pattern.split ----

  /** The pieces between separators, keeping empty ones. Scanning left to
      right, a '.' separates unless the character just before it is a
      backslash (`prevBackslash`); the backslash stays in the piece. `piece`
      is the part of the current piece read so far. */
  function Pieces(s: string, prevBackslash: bool, piece: string): (r: seq<string>)
    ensures |r| >= 1
  {
    if s == [] then [piece]
    else if s[0] == '.' && !prevBackslash then [piece] + Pieces(s[1..], false, "")
    else Pieces(s[1..], s[0] == '\\', piece + [s[0]])
  }

  function RawSplit(path: string): seq<string> {
    Pieces(path, false, "")
  }

  /** `Pattern.split` with limit 0 drops trailing empty strings. */
  function DropTrailingEmpty(ps: seq<string>): (r: seq<string>)
    ensures |r| <= |ps| && r == ps[..|r|]
    ensures forall i | |r| <= i < |ps| :: ps[i] == ""
    ensures r != [] ==> r[|r| - 1] != ""
  {
    if ps != [] && ps[|ps| - 1] == "" then DropTrailingEmpty(ps[..|ps| - 1]) else ps
  }

  /** `path.split(PATH_SEPARATOR)`: without any separator the path itself is
      the only segment; otherwise the pieces with trailing empty ones dropped. */
  function Split(path: string): seq<string> {
    var pieces := RawSplit(path);
    if |pieces| == 1 then pieces else DropTrailingEmpty(pieces)
  }

  /** The segments the constructor computes: none for the empty path,
      otherwise the split path. No trailing segment is empty, and the segments
      are the pieces of the path in order, only empty ones dropped at the end. */
  function Segments(path: string): (segs: seq<string>)
    ensures |segs| <= |RawSplit(path)| && segs == RawSplit(path)[..|segs|]
    ensures forall i | |segs| <= i < |RawSplit(path)| :: RawSplit(path)[i] == ""
    ensures segs != [] ==> segs[|segs| - 1] != ""
  {
    if path == "" then []
    else
      JoinPieces(path, false, "");
      Split(path)
  }

  /** The pieces joined with "." give back the text they came from. */
  function JoinDot(ps: seq<string>): string
    requires ps != []
  {
    if |ps| == 1 then ps[0] else ps[0] + "." + JoinDot(ps[1..])
  }

  /** Splitting loses nothing: joining the pieces with "." restores the input,
      escaping backslashes included. */
  lemma {:induction false} JoinPieces(s: string, prevBackslash: bool, piece: string)
    ensures JoinDot(Pieces(s, prevBackslash, piece)) == piece + s
    ensures |Pieces(s, prevBackslash, piece)| == 1 && s != [] ==> piece + s != []
    decreases |s|
  {
    if s == [] {
    } else if s[0] == '.' && !prevBackslash {
      JoinPieces(s[1..], false, "");
      assert piece + s == piece + "." + s[1..];
    } else {
      JoinPieces(s[1..], s[0] == '\\', piece + [s[0]]);
      assert piece + [s[0]] + s[1..] == piece + s;
    }
  }

  /** No '.' in `s` separates when it is read after a character that was (or
      was not) a backslash. */
  predicate NoSeparator(s: string, prevBackslash: bool) {
    forall j | 0 <= j < |s| && s[j] == '.' :: (j == 0 ==> prevBackslash) && (j > 0 ==> s[j - 1] == '\\')
  }

  /** A segment that survives joining: none of its dots separates, and it does
      not end with a backslash that would escape the next separator. */
  predicate PlainSegment(seg: string) {
    NoSeparator(seg, false) && (seg == [] || seg[|seg| - 1] != '\\')
  }

  /** Reading a stretch without separators just extends the current piece. */
  lemma {:induction false} ScanStretch(s: string, rest: string, prevBackslash: bool, piece: string)
    requires NoSeparator(s, prevBackslash)
    ensures Pieces(s + rest, prevBackslash, piece) ==
            Pieces(rest, if s == [] then prevBackslash else s[|s| - 1] == '\\', piece + s)
    decreases |s|
  {
    if s != [] {
      assert (s + rest)[1..] == s[1..] + rest;
      assert NoSeparator(s[1..], s[0] == '\\') by {
        forall j | 0 <= j < |s[1..]| && s[1..][j] == '.'
          ensures (j == 0 ==> s[0] == '\\') && (j > 0 ==> s[1..][j - 1] == '\\')
        {
          assert s[j + 1] == '.';
        }
      }
      assert (s + rest)[0] == s[0];
      assert s[0] == '.' ==> prevBackslash;
      assert Pieces(s + rest, prevBackslash, piece) == Pieces(s[1..] + rest, s[0] == '\\', piece + [s[0]]);
      ScanStretch(s[1..], rest, s[0] == '\\', piece + [s[0]]);
      assert piece + [s[0]] + s[1..] == piece + s;
      var after := if s[1..] == [] then s[0] == '\\' else s[1..][|s[1..]| - 1] == '\\';
      assert after == (s[|s| - 1] == '\\');
    } else {
      assert s + rest == rest && piece + s == piece;
    }
  }

  /** Splitting undoes joining for plain segments. */
  lemma {:induction false} PiecesOfJoin(segs: seq<string>)
    requires segs != []
    requires forall i | 0 <= i < |segs| :: PlainSegment(segs[i])
    ensures RawSplit(JoinDot(segs)) == segs
    decreases |segs|
  {
    var seg := segs[0];
    if |segs| == 1 {
      ScanStretch(seg, "", false, "");
      assert seg + "" == seg && "" + seg == seg;
    } else {
      var rest := JoinDot(segs[1..]);
      ScanStretch(seg, "." + rest, false, "");
      assert seg + "." + rest == seg + ("." + rest);
      assert "" + seg == seg;
      assert ("." + rest)[0] == '.' && ("." + rest)[1..] == rest;
      assert Pieces("." + rest, false, seg) == [seg] + Pieces(rest, false, "");
      PiecesOfJoin(segs[1..]);
      assert [seg] + segs[1..] == segs;
    }
  }

  /** The constructor's segments of a path built from plain segments, the last
      one non-empty, are exactly those segments. */
  lemma SegmentsOfJoin(segs: seq<string>)
    requires segs != [] && segs[|segs| - 1] != ""
    requires forall i | 0 <= i < |segs| :: PlainSegment(segs[i])
    ensures Segments(JoinDot(segs)) == segs
  {
    PiecesOfJoin(segs);
    JoinPieces(JoinDot(segs), false, "");
  }

  /** A non-empty text none of whose dots separates is one segment, whatever
      it ends with (a trailing backslash included). */
  lemma SingleSegment(seg: string)
    requires seg != "" && NoSeparator(seg, false)
    ensures Segments(seg) == [seg]
  {
    ScanStretch(seg, "", false, "");
    assert seg + "" == seg && "" + seg == seg;
    assert RawSplit(seg) == [seg];
  }

  /** Examples of the separator rule: an escaped dot stays inside its segment,
      an unescaped one splits, and trailing empty segments disappear. */
  lemma SplitExamples()
    ensures Segments("a\\.b.c") == ["a\\.b", "c"]
    ensures Segments("a..") == ["a"]
    ensures Segments("") == []
  {
    assert JoinDot(["a\\.b", "c"]) == "a\\.b.c";
    assert PlainSegment("a\\.b") && PlainSegment("c");
    SegmentsOfJoin(["a\\.b", "c"]);
    assert "a.."[0] == 'a' && "a.."[1..] == ".." && "" + ['a'] == "a";
    assert Pieces("a..", false, "") == Pieces("..", false, "a");
    assert ".."[1..] == ".";
    assert Pieces("..", false, "a") == ["a"] + Pieces(".", false, "");
    assert "."[1..] == "";
    assert Pieces(".", false, "") == [""] + Pieces("", false, "");
    assert RawSplit("a..") == ["a", "", ""];
    assert DropTrailingEmpty(["a", "", ""]) == DropTrailingEmpty(["a", ""]);
    assert ["a", ""][..1] == ["a"];
  }

  // ---- the walk ----

  /** `find()` from `current` over the remaining segments. At a map the segment
      is a key and a missing key ends the search empty-handed; at a list it is
      parsed with `Integer.parseInt` (a `NumberFormatException` when it is not
      an integer) and used with `tryGet` (an `IndexOutOfBoundsException`
      outside the list). At any other element the walk stays where it is while
      segments remain and ends empty-handed at the last one. */
  function Walk(current: Json, segs: seq<string>): Result<Option<Json>, Error>
    decreases |segs|
  {
    if segs == [] then Success(Some(current))
    else
      var seg := segs[0];
      var rest := segs[1..];
      match current
      case JMap(fields) =>
        var next := JsonMap.TryGet(fields, Some(seg));
        if next.None? then Success(None) else Walk(next.value, rest)
      case JList(items) =>
        var idx := DecimalText.ParseInt(seg);
        if idx.None? then Failure(NumberFormat(seg))
        else
          var got := JsonList.TryGet(items, idx.value);
          if got.Failure? then Failure(got.error)
          else if got.value.None? then Success(None)
          else Walk(got.value.value, rest)
      case _ =>
        if rest == [] then Success(None) else Walk(current, rest)
  }

  /** `new JsonPathFinder(root, path).find()`: the loop of the source, which
      removes one segment at a time and moves the cursor. */
  method Find(root: Json, path: string) returns (r: Result<Option<Json>, Error>)
    requires root.IsContainer()
    ensures r == Walk(root, Segments(path))
  {
    var pathElems := Segments(path);
    if |pathElems| == 0 {
      return Success(Some(root));
    }
    var current := root;
    while |pathElems| > 0
      invariant Walk(root, Segments(path)) == Walk(current, pathElems)
      decreases |pathElems|
    {
      var seg := pathElems[0];
      ghost var before := pathElems;
      pathElems := pathElems[1..];
      var next: Option<Json>;
      match current {
        case JMap(fields) =>
          next := JsonMap.TryGet(fields, Some(seg));
        case JList(items) =>
          var idx := DecimalText.ParseInt(seg);
          if idx.None? {
            return Failure(NumberFormat(seg));
          }
          var got := JsonList.TryGet(items, idx.value);
          if got.Failure? {
            return Failure(got.error);
          }
          next := got.value;
        case _ =>
          next := if |pathElems| == 0 then None else Some(current);
      }
      if next.None? {
        return Success(None);
      }
      current := next.value;
    }
    return Success(Some(current));
  }

  /** The empty path finds the starting container itself. */
  lemma EmptyPath(root: Json)
    ensures Walk(root, Segments("")) == Success(Some(root))
  {
  }

  /** Once the walk reaches an element that is not a container with segments
      left, the result is empty. */
  lemma {:induction false} PrimitiveRemaining(current: Json, segs: seq<string>)
    requires !current.IsContainer() && segs != []
    ensures Walk(current, segs) == Success(None)
    decreases |segs|
  {
    if |segs| > 1 {
      PrimitiveRemaining(current, segs[1..]);
    }
  }

  /** Continuing a walk's outcome with more segments. */
  function Continue(outcome: Result<Option<Json>, Error>, more: seq<string>): Result<Option<Json>, Error> {
    if outcome.Failure? then outcome
    else if outcome.value.None? then Success(None)
    else Walk(outcome.value.value, more)
  }

  /** Walking `first + more` is walking `first` and then `more` from where it
      ended: the segments are consumed exactly, in order. */
  lemma {:induction false} WalkAppend(current: Json, first: seq<string>, more: seq<string>)
    requires more != []
    ensures Walk(current, first + more) == Continue(Walk(current, first), more)
    decreases |first|
  {
    if first != [] {
      assert (first + more)[0] == first[0];
      assert (first + more)[1..] == first[1..] + more;
      if current.IsContainer() {
        match current
        case JMap(fields) =>
          if JsonMap.TryGet(fields, Some(first[0])).Some? {
            WalkAppend(JsonMap.TryGet(fields, Some(first[0])).value, first[1..], more);
          }
        case JList(items) =>
          var idx := DecimalText.ParseInt(first[0]);
          if idx.Some? && 0 <= idx.value < |items| {
            WalkAppend(items[idx.value], first[1..], more);
          }
      } else {
        PrimitiveRemaining(current, first + more);
        if |first| > 1 {
          PrimitiveRemaining(current, first);
        }
      }
    } else {
      assert first + more == more;
    }
  }

  /** A one-segment walk is direct access: `tryGet(key)` at a map, `tryGet(index)`
      at a list. */
  lemma OneSegment(current: Json, seg: string)
    ensures current.JMap? ==> Walk(current, [seg]) == Success(JsonMap.TryGet(current.fields, Some(seg)))
    ensures current.JList? && DecimalText.ParseInt(seg).Some? ==>
              Walk(current, [seg]) == JsonList.TryGet(current.items, DecimalText.ParseInt(seg).value)
    ensures current.JList? && DecimalText.ParseInt(seg).None? ==> Walk(current, [seg]) == Failure(NumberFormat(seg))
  {
  }

  /** `target` is `root` or an element nested somewhere inside it. */
  predicate Within(target: Json, root: Json)
    decreases root
  {
    target == root ||
    (root.JList? && exists i | 0 <= i < |root.items| :: Within(target, root.items[i])) ||
    (root.JMap? && exists i | 0 <= i < |root.fields| :: Within(target, root.fields[i].1))
  }

  /** What a walk finds is the start or an element nested inside it. */
  lemma {:induction false} WalkFindsWithin(current: Json, segs: seq<string>)
    ensures Walk(current, segs).Success? && Walk(current, segs).value.Some? ==>
              Within(Walk(current, segs).value.value, current)
    decreases |segs|
  {
    var r := Walk(current, segs);
    if segs != [] && r.Success? && r.value.Some? {
      match current
      case JMap(fields) =>
        var next := JsonMap.TryGet(fields, Some(segs[0])).value;
        WalkFindsWithin(next, segs[1..]);
        var i :| 0 <= i < |fields| && fields[i] == (segs[0], next);
        assert Within(r.value.value, fields[i].1);
      case JList(items) =>
        var idx := DecimalText.ParseInt(segs[0]).value;
        WalkFindsWithin(items[idx], segs[1..]);
      case _ =>
        WalkFindsWithin(current, segs[1..]);
    }
  }

  /** The library's own examples: `0` and `0.x` on a list holding one
      integer, and `0.name` through a list and then a map. */
  lemma WalkIndex(n: int)
    ensures Walk(JList([JInteger(n)]), Segments("0")) == Success(Some(JInteger(n)))
  {
    assert PlainSegment("0");
    SegmentsOfJoin(["0"]);
    assert DecimalText.ParseInt("0") == Some(0);
  }

  lemma WalkPastPrimitive(n: int)
    ensures Walk(JList([JInteger(n)]), Segments("0.x")) == Success(None)
  {
    assert PlainSegment("0") && PlainSegment("x");
    assert JoinDot(["0", "x"]) == "0.x";
    SegmentsOfJoin(["0", "x"]);
    assert DecimalText.ParseInt("0") == Some(0);
  }

  lemma WalkNested(v: Json)
    ensures Walk(JList([JMap([("name", v)])]), Segments("0.name")) == Success(Some(v))
  {
    assert PlainSegment("0") && PlainSegment("name");
    assert JoinDot(["0", "name"]) == "0.name";
    SegmentsOfJoin(["0", "name"]);
    assert DecimalText.ParseInt("0") == Some(0);
    assert Walk(JMap([("name", v)]), ["name"]) == Success(Some(v));
  }
}
