/** The naming rule of the legacy built-in actions (`IBuildinAction`): an action is named
    after the last package segments of its Java class, with the class prefix letter
    dropped and everything lower-cased. */
module LegacyBuildinAction {

  import opened Wrappers

  type Path = seq<string>

  /** The number of trailing segments the default constructor keeps. */
  const DefaultLength: int := 2

  function Max(a: int, b: int): int { if a < b then b else a }
  function Min(a: int, b: int): int { if a < b then a else b }

  /** The values of a Java `int`. */
  predicate IsInt(x: int) { -0x8000_0000 <= x < 0x8000_0000 }

  /** Java `int` subtraction: the difference wrapped around into the `int` range. */
  function Sub32(a: int, b: int): (r: int)
    ensures IsInt(r) && (r - (a - b)) % 0x1_0000_0000 == 0
    ensures IsInt(a - b) ==> r == a - b
  {
    var d := (a - b) % 0x1_0000_0000;
    if d < 0x8000_0000 then d else d - 0x1_0000_0000
  }

  /** Every '.'-separated piece of `s`, empty ones included (one more piece than dots). */
  function SplitAll(s: string): (r: seq<string>)
    ensures |r| >= 1
    ensures forall i :: 0 <= i < |r| ==> '.' !in r[i]
  {
    if s == [] then [""]
    else if s[0] == '.' then [""] + SplitAll(s[1..])
    else
      var rest := SplitAll(s[1..]);
      [[s[0]] + rest[0]] + rest[1..]
  }

  /** The pieces put back together with '.' between them. */
  function Join(segments: seq<string>): string
    requires |segments| >= 1
  {
    if |segments| == 1 then segments[0] else segments[0] + "." + Join(segments[1..])
  }

  /** Splitting loses nothing: joining the pieces gives the string back. */
  lemma {:induction false} JoinSplitAll(s: string)
    ensures Join(SplitAll(s)) == s
  {
    if s == [] {
    } else if s[0] == '.' {
      JoinSplitAll(s[1..]);
      assert SplitAll(s)[1..] == SplitAll(s[1..]);
      assert s == "" + "." + s[1..];
    } else {
      JoinSplitAll(s[1..]);
      var rest := SplitAll(s[1..]);
      if |rest| == 1 {
        assert s == [s[0]] + rest[0];
      } else {
        assert SplitAll(s)[1..] == rest[1..];
        assert Join(rest) == rest[0] + "." + Join(rest[1..]);
        assert s == [s[0]] + s[1..];
      }
    }
  }

  /** The pieces without the trailing empty ones. */
  function DropTrailingEmpty(segments: seq<string>): (r: seq<string>)
    ensures |r| <= |segments| && r == segments[..|r|]
    ensures r != [] ==> r[|r| - 1] != ""
    ensures forall i :: |r| <= i < |segments| ==> segments[i] == ""
  {
    if segments == [] then []
    else if segments[|segments| - 1] == "" then DropTrailingEmpty(segments[..|segments| - 1])
    else segments
  }

  /** Java's `String.split("\\.")`: the whole string when it holds no dot, otherwise the
      pieces with trailing empty pieces removed. */
  function SplitDots(s: string): (r: seq<string>)
    ensures '.' !in s ==> r == [s]
    ensures forall i :: 0 <= i < |r| ==> '.' !in r[i]
  {
    if '.' !in s then [s] else DropTrailingEmpty(SplitAll(s))
  }

  function LowerChar(c: char): (r: char)
    ensures !('A' <= r <= 'Z')
  {
    if 'A' <= c <= 'Z' then (c as int + 32) as char else c
  }

  /** `CPath.toLower` on one segment, for the letters A-Z. */
  function Lower(s: string): (r: string)
    ensures |r| == |s|
    ensures forall i :: 0 <= i < |s| ==> r[i] == LowerChar(s[i])
    ensures IsLowerCase(r)
  {
    if s == [] then [] else [LowerChar(s[0])] + Lower(s[1..])
  }

  predicate IsLowerCase(s: string)
  {
    forall i :: 0 <= i < |s| ==> !('A' <= s[i] <= 'Z')
  }

  function LowerAll(p: Path): (r: Path)
    ensures |r| == |p|
    ensures forall i :: 0 <= i < |p| ==> r[i] == Lower(p[i])
  {
    if p == [] then [] else [Lower(p[0])] + LowerAll(p[1..])
  }

  /** The segments of a canonical class name with the first letter of the class name
      removed; `None` where Java throws (no segment at all, or an empty last one). */
  function Segments(className: string): Option<Path>
  {
    var names := SplitDots(className);
    if names == [] || names[|names| - 1] == "" then None
    else Some(names[..|names| - 1] + [names[|names| - 1][1..]])
  }

  /** The constructor `IBuildinAction(length)`: the name of an action class. The start
      index `size - length` is computed in Java `int`, so a negative length far enough
      below zero wraps the difference negative and keeps the whole name; a list has at
      most `0x7fff_ffff` elements. */
  function Name(className: string, length: int): (r: Result<Path>)
    requires IsInt(length)
    ensures r.Ok? ==> Segments(className).Some?
    ensures r.Ok? ==>
      var names := Segments(className).value;
      |r.value| <= |names| && r.value == LowerAll(names[|names| - |r.value|..]) &&
      (forall i :: 0 <= i < |r.value| ==> IsLowerCase(r.value[i]))
    ensures Segments(className).None? ==> r == Err(IndexOutOfBounds)
    ensures Segments(className).Some? && |Segments(className).value| < 0x8000_0000 ==>
      var n := |Segments(className).value|;
      (length >= 0 ==> r.Ok? && |r.value| == Min(length, n)) &&
      (length < 0 && n - length < 0x8000_0000 ==> r == Err(IllegalArgument("fromIndex > toIndex"))) &&
      (length < 0 && n - length >= 0x8000_0000 ==> r.Ok? && |r.value| == n)
  {
    match Segments(className)
    case None => Err(IndexOutOfBounds)
    case Some(names) =>
      var from := Max(0, Sub32(|names|, length));
      if from > |names| then Err(IllegalArgument("fromIndex > toIndex"))
      else Ok(LowerAll(names[from..]))
  }

  /** The name's last segment is the class name without its prefix letter. */
  lemma NameEndsWithClass(className: string, length: int)
    requires IsInt(length) && Name(className, length).Ok? && length > 0
    ensures var names := SplitDots(className);
      var r := Name(className, length).value;
      r != [] && r[|r| - 1] == Lower(names[|names| - 1][1..])
  {
    var names := Segments(className).value;
    var r := Name(className, length).value;
    assert r[|r| - 1] == Lower(names[|names| - |r|..][|r| - 1]);
  }

  /** A class name with dots but without empty pieces splits into exactly those pieces. */
  lemma SplitDotsOfCanonical(s: string)
    requires forall p :: p in SplitAll(s) ==> p != ""
    ensures SplitDots(s) == SplitAll(s)
  {
    var all := SplitAll(s);
    assert all[|all| - 1] in all;
    if '.' !in s {
      SplitAllWord(s);
    }
  }

  /** A piece without dots stays whole. */
  lemma {:induction false} SplitAllWord(w: string)
    requires '.' !in w
    ensures SplitAll(w) == [w]
  {
    if w != [] {
      SplitAllWord(w[1..]);
      assert [w[0]] + w[1..] == w;
    }
  }

  /** Splitting a piece followed by a dot and the rest. */
  lemma {:induction false} SplitAllCons(w: string, s: string)
    requires '.' !in w
    ensures SplitAll(w + "." + s) == [w] + SplitAll(s)
  {
    if w == [] {
      assert w + "." + s == "." + s;
      assert ("." + s)[1..] == s;
    } else {
      SplitAllCons(w[1..], s);
      assert (w + "." + s)[1..] == w[1..] + "." + s;
      assert [w[0]] + w[1..] == w;
    }
  }

  /** Joining dot-free pieces and splitting again gives the pieces back. */
  lemma {:induction false} SplitAllJoin(pieces: seq<string>)
    requires |pieces| >= 1
    requires forall i :: 0 <= i < |pieces| ==> '.' !in pieces[i]
    ensures SplitAll(Join(pieces)) == pieces
  {
    if |pieces| == 1 {
      SplitAllWord(pieces[0]);
    } else {
      SplitAllJoin(pieces[1..]);
      SplitAllCons(pieces[0], Join(pieces[1..]));
      assert [pieces[0]] + pieces[1..] == pieces;
    }
  }

  lemma SegmentsOfPieces(s: string, pieces: seq<string>)
    requires SplitDots(s) == pieces && pieces != [] && pieces[|pieces| - 1] != ""
    ensures Segments(s) == Some(pieces[..|pieces| - 1] + [pieces[|pieces| - 1][1..]])
  {
  }

  /** The name of an action class whose canonical name has only non-empty pieces: its
      last `length` pieces, the class's prefix letter dropped, lower-cased. */
  lemma CanonicalName(pieces: seq<string>, length: int)
    requires 1 <= |pieces| < 0x8000_0000 && IsInt(length) && length >= 0
    requires forall i :: 0 <= i < |pieces| ==> '.' !in pieces[i] && pieces[i] != ""
    ensures var names := pieces[..|pieces| - 1] + [pieces[|pieces| - 1][1..]];
      Name(Join(pieces), length) == Ok(LowerAll(names[Max(0, |pieces| - length)..]))
  {
    var s := Join(pieces);
    SplitAllJoin(pieces);
    assert forall p :: p in SplitAll(s) ==> p != "";
    SplitDotsOfCanonical(s);
    SegmentsOfPieces(s, pieces);
  }

  /** The pieces of the canonical name of the map-creating action `CCreate`. */
  predicate IsCreatePieces(pieces: seq<string>)
  {
    pieces == ["lightjason", "agent", "action", "buildin", "collection", "map", "CCreate"]
  }

  /** `CCreate` keeps three segments and is named `collection.map.create`. */
  lemma CreateActionName(pieces: seq<string>)
    requires IsCreatePieces(pieces)
    ensures Name(Join(pieces), 3) == Ok(["collection", "map", "create"])
  {
    CreatePiecesPlain(pieces);
    PackagedActionName(pieces);
  }

  /** Any seven-piece canonical name ending in `collection.map.CCreate` is named like
      `CCreate` when three segments are kept. */
  lemma PackagedActionName(pieces: seq<string>)
    requires |pieces| == 7
    requires forall i :: 0 <= i < |pieces| ==> '.' !in pieces[i] && pieces[i] != ""
    requires pieces[4] == "collection" && pieces[5] == "map" && pieces[6] == "CCreate"
    requires IsLowerCase(pieces[4]) && IsLowerCase(pieces[5])
    ensures Name(Join(pieces), 3) == Ok(["collection", "map", "create"])
  {
    CanonicalName(pieces, 3);
    var names := pieces[..6] + [pieces[6][1..]];
    LastThree(names);
    assert names[4] == pieces[4] && names[5] == pieces[5] && names[6] == pieces[6][1..];
    LowerAllOfThree(pieces[4], pieces[5], pieces[6][1..]);
    LowerKeepsLowerCase(pieces[4]);
    LowerKeepsLowerCase(pieces[5]);
    LowerCreate(pieces[6]);
  }

  /** No piece of `CCreate`'s canonical name is empty or holds a dot. */
  lemma CreatePiecesPlain(pieces: seq<string>)
    requires IsCreatePieces(pieces)
    ensures |pieces| == 7
    ensures forall i :: 0 <= i < |pieces| ==> '.' !in pieces[i] && pieces[i] != ""
    ensures IsLowerCase(pieces[4]) && IsLowerCase(pieces[5])
  {
    forall i | 0 <= i < |pieces|
      ensures '.' !in pieces[i] && pieces[i] != ""
    {
      var p := pieces[i];
      assert forall j :: 0 <= j < |p| ==> 'a' <= p[j] <= 'z' || 'A' <= p[j] <= 'Z';
    }
  }

  lemma LastThree<T>(s: seq<T>)
    requires |s| >= 3
    ensures s[|s| - 3..] == [s[|s| - 3], s[|s| - 2], s[|s| - 1]]
  {
  }

  lemma LowerAllOfThree(a: string, b: string, c: string)
    ensures LowerAll([a, b, c]) == [Lower(a), Lower(b), Lower(c)]
  {
  }

  /** Lower-casing leaves lower-case text as it is. */
  lemma LowerKeepsLowerCase(s: string)
    requires IsLowerCase(s)
    ensures Lower(s) == s
  {
    var r := Lower(s);
    forall i | 0 <= i < |s|
      ensures r[i] == s[i]
    {
      assert r[i] == LowerChar(s[i]);
    }
  }

  /** The class name of `CCreate` without its prefix letter, lower-cased. */
  lemma LowerCreate(c: string)
    requires c == "CCreate"
    ensures Lower(c[1..]) == "create"
  {
    var r := Lower(c[1..]);
    assert |r| == 6;
    forall i | 0 <= i < 6
      ensures r[i] == "create"[i]
    {
      assert r[i] == LowerChar(c[i + 1]);
    }
  }

  /** A bare class name without a package gives a one-segment name. */
  lemma UnqualifiedName(s: string, length: int)
    requires '.' !in s && s != [] && IsInt(length) && length >= 1
    ensures Name(s, length) == Ok([Lower(s[1..])])
  {
    var names := SplitDots(s);
    assert names == [s];
    assert names[..0] + [s[1..]] == [s[1..]];
    assert Segments(s) == Some([s[1..]]);
    var r := LowerAll([s[1..]]);
    assert r == [Lower(s[1..])];
  }

  /** A small negative length is an illegal argument, but `Integer.MIN_VALUE` wraps
      `size - length` around to a negative start and keeps the whole name. */
  lemma NegativeLengthWraps(s: string)
    requires '.' !in s && s != []
    ensures Name(s, -1) == Err(IllegalArgument("fromIndex > toIndex"))
    ensures Name(s, -0x8000_0000) == Ok([Lower(s[1..])])
  {
    var names := SplitDots(s);
    assert names == [s];
    assert names[..0] + [s[1..]] == [s[1..]];
    assert Segments(s) == Some([s[1..]]);
    assert Sub32(1, -0x8000_0000) == -0x7fff_ffff;
    assert [s[1..]][0..] == [s[1..]];
    var r := LowerAll([s[1..]]);
    assert r == [Lower(s[1..])];
  }

  /** The empty name and a name of dots only are refused as Java refuses them. */
  lemma DegenerateNames()
    ensures Name("", DefaultLength) == Err(IndexOutOfBounds)
    ensures Name("..", DefaultLength) == Err(IndexOutOfBounds)
  {
    assert SplitAll("..") == ["", "", ""];
    assert '.' in "..";
  }
}
