/** Normalising a file path in a character buffer, and the stack of path pieces that it computes. */
module NormalizePath {
  const NUL: char := 0 as char

  predicate IsDelimiter(c: char) { c == '/' || c == '\\' }

  /** `tolower` of the C locale. */
  function ToLower(c: char): char {
    if 'A' <= c <= 'Z' then (c as int + 32) as char else c
  }

  function CleanChar(c: char, lower: bool): char {
    if IsDelimiter(c) then '/' else if lower then ToLower(c) else c
  }

  function Clean(s: string, lower: bool): (r: string)
    ensures |r| == |s| && forall i :: 0 <= i < |s| ==> r[i] == CleanChar(s[i], lower)
  {
    if s == "" then "" else [CleanChar(s[0], lower)] + Clean(s[1..], lower)
  }

  /** What a C string says: the characters before the first zero. */
  function CString(s: string): (r: string)
    ensures NUL !in s ==> r == s
    ensures r <= s && (0 as char) !in r && (|r| < |s| ==> s[|r|] == 0 as char)
  {
    if s == "" || s[0] == NUL then "" else [s[0]] + CString(s[1..])
  }

  /** A slash for both delimiters, a small letter for a capital if that is asked for, and otherwise the character itself. */
  predicate IsReadAs(c: char, r: char, lower: bool) {
    if c == '/' || c == '\\' then r == '/'
    else if lower && 65 <= c as int <= 90 then r as int == c as int + 32
    else r == c
  }

  lemma CleanIs(s: string, lower: bool)
    ensures forall i :: 0 <= i < |s| ==> IsReadAs(s[i], Clean(s, lower)[i], lower)
  {
  }

  // ---- pieces ----

  /** A piece ends at its first slash, or where the path ends. */
  predicate IsPiece(p: string) {
    p != "" && forall i :: 0 <= i < |p| - 1 ==> p[i] != '/'
  }

  predicate IsClosed(p: string) { IsPiece(p) && p[|p| - 1] == '/' }

  /** The length of the first piece. */
  function Cut(s: string): (n: nat)
    requires s != ""
    ensures 1 <= n <= |s| && IsPiece(s[..n]) && (n < |s| ==> IsClosed(s[..n]))
  {
    if s[0] == '/' || |s| == 1 then 1 else
      var n := Cut(s[1..]);
      assert s[..n + 1][1..] == s[1..][..n];
      n + 1
  }

  lemma {:induction false} CutIs(s: string, n: nat)
    requires 1 <= n <= |s| && (forall i :: 0 <= i < n - 1 ==> s[i] != '/') && (n < |s| ==> s[n - 1] == '/')
    ensures Cut(s) == n
  {
    if n > 1 {
      CutIs(s[1..], n - 1);
    }
  }

  function Pieces(s: string): seq<string> {
    if s == "" then [] else [s[..Cut(s)]] + Pieces(s[Cut(s)..])
  }

  function Join(ps: seq<string>): string {
    if ps == [] then "" else ps[0] + Join(ps[1..])
  }

  /** All pieces, and all of them closed except possibly the last. */
  predicate ArePieces(ps: seq<string>) {
    forall i :: 0 <= i < |ps| ==> IsPiece(ps[i]) && (i < |ps| - 1 ==> IsClosed(ps[i]))
  }

  lemma {:induction false} PiecesOk(s: string)
    ensures ArePieces(Pieces(s)) && Join(Pieces(s)) == s
    decreases |s|
  {
    if s != "" {
      var n := Cut(s);
      PiecesOk(s[n..]);
      assert s == s[..n] + s[n..];
      assert n == |s| ==> Pieces(s[n..]) == [];
    }
  }

  lemma {:induction false} PiecesOfJoin(ps: seq<string>)
    requires ArePieces(ps)
    ensures Pieces(Join(ps)) == ps
  {
    if ps != [] {
      var s := Join(ps);
      PiecesOfJoin(ps[1..]);
      assert |ps| == 1 ==> Join(ps[1..]) == "";
      CutIs(s, |ps[0]|);
      assert s[..|ps[0]|] == ps[0] && s[|ps[0]|..] == Join(ps[1..]);
    }
  }

  lemma {:induction false} JoinConcat(a: seq<string>, b: seq<string>)
    ensures Join(a + b) == Join(a) + Join(b)
  {
    if a == [] {
      assert a + b == b;
    } else {
      var ab := a + b;
      assert ab[0] == a[0] && ab[1..] == a[1..] + b;
      JoinConcat(a[1..], b);
      assert Join(ab) == a[0] + (Join(a[1..]) + Join(b));
    }
  }

  // ---- the stack normaliser ----

  /** Empty and "./" pieces are dropped, "../" takes back the piece before it unless that is "../" too. */
  function Push(kept: seq<string>, p: string): seq<string> {
    if p == "/" || p == "./" then kept
    else if p == "../" && kept != [] && kept[|kept| - 1] != "../" then kept[..|kept| - 1]
    else kept + [p]
  }

  function PushAll(kept: seq<string>, ps: seq<string>): seq<string>
    decreases |ps|
  {
    if ps == [] then kept else PushAll(Push(kept, ps[0]), ps[1..])
  }

  function Normal(s: string, lower: bool): string {
    Join(PushAll([], Pieces(Clean(s, lower))))
  }

  /** Nothing to drop, and "../" only in front. */
  predicate IsCanonical(ps: seq<string>) {
    && ArePieces(ps)
    && (forall i :: 0 <= i < |ps| ==> ps[i] != "/" && ps[i] != "./")
    && (forall i, j :: 0 <= i < j < |ps| && ps[j] == "../" ==> ps[i] == "../")
  }

  predicate AllClosed(ps: seq<string>) { forall i :: 0 <= i < |ps| ==> IsClosed(ps[i]) }

  lemma PushCanonical(kept: seq<string>, p: string)
    requires IsCanonical(kept) && AllClosed(kept) && IsPiece(p)
    ensures IsCanonical(Push(kept, p)) && (IsClosed(p) ==> AllClosed(Push(kept, p)))
  {
    if p == "/" || p == "./" {
    } else if p == "../" && kept != [] && kept[|kept| - 1] != "../" {
      PopCanonical(kept);
    } else {
      AppendCanonical(kept, p);
    }
  }

  lemma PopCanonical(kept: seq<string>)
    requires IsCanonical(kept) && AllClosed(kept) && kept != []
    ensures IsCanonical(kept[..|kept| - 1]) && AllClosed(kept[..|kept| - 1])
  {
  }

  lemma AppendCanonical(kept: seq<string>, p: string)
    requires IsCanonical(kept) && AllClosed(kept) && IsPiece(p) && p != "/" && p != "./"
    requires p == "../" && kept != [] ==> kept[|kept| - 1] == "../"
    ensures IsCanonical(kept + [p]) && (IsClosed(p) ==> AllClosed(kept + [p]))
  {
    var next := kept + [p];
    forall i | 0 <= i < |next| ensures IsPiece(next[i]) && (i < |next| - 1 ==> IsClosed(next[i])) && next[i] != "/" && next[i] != "./" {
      assert i < |kept| ==> next[i] == kept[i];
    }
    forall i, j | 0 <= i < j < |next| && next[j] == "../" ensures next[i] == "../" {
      if j == |kept| && i < j - 1 {
        assert kept[j - 1] == "../";
      }
    }
  }

  lemma {:induction false} PushAllCanonical(kept: seq<string>, ps: seq<string>)
    requires IsCanonical(kept) && AllClosed(kept) && ArePieces(ps)
    ensures IsCanonical(PushAll(kept, ps))
    decreases |ps|
  {
    if ps != [] {
      PushCanonical(kept, ps[0]);
      if |ps| > 1 {
        assert IsClosed(ps[0]);
        PushAllCanonical(Push(kept, ps[0]), ps[1..]);
      }
    }
  }

  lemma {:induction false} CanonicalStays(kept: seq<string>, ps: seq<string>)
    requires IsCanonical(kept + ps)
    ensures PushAll(kept, ps) == kept + ps
    decreases |ps|
  {
    if ps == [] {
      assert kept + ps == kept;
    } else {
      assert (kept + ps)[|kept|] == ps[0];
      assert kept != [] ==> (kept + ps)[|kept| - 1] == kept[|kept| - 1];
      assert (kept + [ps[0]]) + ps[1..] == kept + ps;
      CanonicalStays(kept + [ps[0]], ps[1..]);
    }
  }

  /** A normalised path is made of canonical pieces. */
  lemma NormalIsCanonical(s: string, lower: bool)
    ensures IsCanonical(Pieces(Normal(s, lower)))
  {
    PiecesOk(Clean(s, lower));
    PushAllCanonical([], Pieces(Clean(s, lower)));
    PiecesOfJoin(PushAll([], Pieces(Clean(s, lower))));
  }

  predicate Spelled(s: string, base: string) { forall i :: 0 <= i < |s| ==> s[i] in base }

  lemma {:induction false} PushAllSpelled(kept: seq<string>, ps: seq<string>, base: string)
    requires forall p :: p in kept || p in ps ==> Spelled(p, base)
    ensures Spelled(Join(PushAll(kept, ps)), base)
    decreases |ps|, |kept|
  {
    if ps != [] {
      PushAllSpelled(Push(kept, ps[0]), ps[1..], base);
    } else if kept != [] {
      PushAllSpelled(kept[1..], [], base);
      assert Spelled(kept[0], base);
    }
  }

  lemma {:induction false} PiecesSpelled(s: string, base: string)
    requires Spelled(s, base)
    ensures forall p :: p in Pieces(s) ==> Spelled(p, base)
    decreases |s|
  {
    if s != "" {
      PiecesSpelled(s[Cut(s)..], base);
    }
  }

  /** Normalising adds no characters, so a path without zeros is not cut off. */
  lemma NormalSpelled(s: string, lower: bool)
    ensures Spelled(Normal(s, lower), Clean(s, lower))
    ensures NUL !in s ==> CString(Normal(s, lower)) == Normal(s, lower)
  {
    var c := Clean(s, lower);
    PiecesSpelled(c, c);
    PushAllSpelled([], Pieces(c), c);
  }

  /** No backslash is left, and no capital letter if small ones are asked for; and nothing else is changed. */
  lemma NormalChars(s: string, lower: bool)
    ensures forall c :: c in Normal(s, lower) ==> c != '\\' && (lower ==> !(65 <= c as int <= 90))
    ensures forall c :: c in Normal(s, lower) ==> exists i :: 0 <= i < |s| && IsReadAs(s[i], c, lower)
  {
    NormalSpelled(s, lower);
    CleanIs(s, lower);
    forall c | c in Normal(s, lower) ensures exists i :: 0 <= i < |s| && IsReadAs(s[i], c, lower) {
      var j :| 0 <= j < |Normal(s, lower)| && Normal(s, lower)[j] == c;
      var i :| 0 <= i < |s| && Clean(s, lower)[i] == c;
    }
  }

  /** No zero, no backslash, and no capital letter if small ones are asked for. */
  predicate IsNormalText(s: string, lower: bool) {
    forall i :: 0 <= i < |s| ==> s[i] != 0 as char && s[i] != '\\' && (lower ==> !(65 <= s[i] as int <= 90))
  }

  lemma ResultChars(s: string, lower: bool)
    ensures IsNormalText(CString(Normal(s, lower)), lower)
  {
    NormalChars(s, lower);
    var r := CString(Normal(s, lower));
    forall i | 0 <= i < |r| ensures r[i] in Normal(s, lower) && r[i] in r { assert r[i] == Normal(s, lower)[i]; }
  }

  /** Normalising is idempotent. */
  lemma NormalIdempotent(s: string, lower: bool)
    ensures Normal(Normal(s, lower), lower) == Normal(s, lower)
  {
    var n := Normal(s, lower);
    NormalSpelled(s, lower);
    assert Clean(n, lower) == n;
    NormalIsCanonical(s, lower);
    CanonicalStays([], Pieces(n));
    assert [] + Pieces(n) == Pieces(n);
    PiecesOk(n);
  }

  /** Where a piece leads from the directory `at`; going up from the root stays there. */
  function Step(at: seq<string>, p: string): seq<string> {
    if p == "/" || p == "./" || p == "." then at
    else if p == "../" || p == ".." then (if at == [] then [] else at[..|at| - 1])
    else at + [p]
  }

  function Walk(at: seq<string>, ps: seq<string>): seq<string>
    decreases |ps|
  {
    if ps == [] then at else Walk(Step(at, ps[0]), ps[1..])
  }

  lemma {:induction false} WalkOn(at: seq<string>, ps: seq<string>, qs: seq<string>)
    ensures Walk(at, ps + qs) == Walk(Walk(at, ps), qs)
    decreases |ps|
  {
    if ps == [] {
      assert ps + qs == qs;
    } else {
      assert (ps + qs)[1..] == ps[1..] + qs && (ps + qs)[0] == ps[0];
      WalkOn(Step(at, ps[0]), ps[1..], qs);
    }
  }

  lemma PopWalk(at: seq<string>, init: seq<string>, name: string)
    requires name !in {"/", "./", ".", "../", ".."}
    ensures Walk(Walk(at, init + [name]), ["../"]) == Walk(at, init)
  {
    var there := Walk(at, init);
    WalkOn(at, init, [name]);
    assert Walk(there, [name]) == there + [name];
    assert (there + [name])[..|there|] == there;
  }

  lemma PushWalk(at: seq<string>, kept: seq<string>, p: string)
    requires IsCanonical(kept) && AllClosed(kept)
    ensures Walk(at, Push(kept, p)) == Walk(Walk(at, kept), [p])
  {
    if p == "../" && kept != [] && kept[|kept| - 1] != "../" {
      var n := |kept| - 1;
      assert IsClosed(kept[n]);
      assert kept == kept[..n] + [kept[n]];
      PopWalk(at, kept[..n], kept[n]);
    } else {
      WalkOn(at, kept, [p]);
    }
  }

  lemma {:induction false} PushAllWalk(at: seq<string>, kept: seq<string>, ps: seq<string>)
    requires IsCanonical(kept) && AllClosed(kept) && ArePieces(ps)
    ensures Walk(at, PushAll(kept, ps)) == Walk(Walk(at, kept), ps)
    decreases |ps|
  {
    if ps != [] {
      PushWalk(at, kept, ps[0]);
      assert ps == [ps[0]] + ps[1..];
      WalkOn(Walk(at, kept), [ps[0]], ps[1..]);
      if |ps| > 1 {
        PushCanonical(kept, ps[0]);
        assert IsClosed(ps[0]);
        PushAllWalk(at, Push(kept, ps[0]), ps[1..]);
      }
    }
  }

  /** Piece by piece a normalised path leads to where the path led; a piece "/" stays where it is. */
  lemma NormalWalk(at: seq<string>, s: string, lower: bool)
    ensures Walk(at, Pieces(Normal(s, lower))) == Walk(at, Pieces(Clean(s, lower)))
  {
    var ps := Pieces(Clean(s, lower));
    PiecesOk(Clean(s, lower));
    PushAllCanonical([], ps);
    PiecesOfJoin(PushAll([], ps));
    PushAllWalk(at, [], ps);
  }

  /** The directory a clean path leads to from `at`: one that begins with a slash leads from the root. */
  function Lead(at: seq<string>, c: string): seq<string> {
    Walk(if c != "" && c[0] == '/' then [] else at, Pieces(c))
  }

  predicate IsRelative(s: string) { s == "" || !IsDelimiter(s[0]) }

  /** A canonical path is relative. */
  lemma NormalIsRelative(s: string, lower: bool)
    ensures IsRelative(Normal(s, lower)) && forall at :: Lead(at, Normal(s, lower)) == Walk(at, Pieces(Normal(s, lower)))
  {
    var n := Normal(s, lower);
    NormalIsCanonical(s, lower);
    if n != "" {
      FirstIs(n);
      assert Pieces(n)[0] == First(n);
      NormalSpelled(s, lower);
    }
  }

  lemma {:induction false} WalkLength(at: seq<string>, ps: seq<string>)
    ensures |Walk(at, ps)| + |ps| >= |at|
    decreases |ps|
  {
    if ps != [] {
      WalkLength(Step(at, ps[0]), ps[1..]);
    }
  }

  /** From every directory a normalised path leads to where the path led if and only if the path is empty or does not
      begin with a delimiter: the delimiter in front is dropped, and the path becomes a relative one. */
  lemma NormalKeepsMeaningIff(s: string, lower: bool)
    ensures (forall at :: Lead(at, Normal(s, lower)) == Lead(at, Clean(s, lower))) <==> IsRelative(s)
  {
    var c, n := Clean(s, lower), Normal(s, lower);
    NormalIsRelative(s, lower);
    if IsRelative(s) {
      forall at ensures Lead(at, n) == Lead(at, c) { NormalWalk(at, s, lower); }
    } else {
      var deep := seq(|Pieces(c)| + |Walk([], Pieces(c))| + 1, _ => "a/");
      NormalWalk(deep, s, lower);
      WalkLength(deep, Pieces(c));
      assert Lead(deep, c) == Walk([], Pieces(c));
      assert Lead(deep, n) != Lead(deep, c);
    }
  }

  /** "/a" becomes "a". */
  lemma RootIsLost()
    ensures Normal("/a", false) == "a" && Lead(["b/"], "/a") == ["a"] && Lead(["b/"], Normal("/a", false)) == ["b/", "a"]
  {
    var c := Clean("/a", false);
    assert c == "/a";
    CutIs(c, 1);
    assert c[..1] == "/" && c[1..] == "a";
    CutIs("a", 1);
    assert "a"[..1] == "a" && "a"[1..] == "";
    assert Pieces("a") == ["a"];
    assert Pieces(c) == ["/"] + Pieces("a");
    assert PushAll([], Pieces(c)) == PushAll(Push([], "/"), ["a"]);
    assert PushAll([], ["a"]) == PushAll(["a"], []);
    assert Join(["a"]) == "a" + Join([]);
    assert Walk([], Pieces(c)) == Walk([], ["a"]) == Walk(["a"], []);
    assert Walk(["b/"], ["a"]) == Walk(["b/", "a"], []);
  }

  // ---- the buffer algorithm ----

  lemma JoinSlash(kept: seq<string>, i: nat)
    requires AllClosed(kept) && i < |Join(kept)|
    ensures Join(kept)[|Join(kept)| - 1] == '/'
    decreases |kept|
  {
    if |kept| > 1 {
      JoinSlash(kept[1..], 0);
    }
  }

  lemma {:induction false} JoinUps(kept: seq<string>)
    requires forall i :: 0 <= i < |kept| ==> kept[i] == "../"
    ensures |Join(kept)| == 3 * |kept|
  {
    if kept != [] {
      JoinUps(kept[1..]);
    }
  }

  lemma {:induction false} JoinNonempty(a: seq<string>)
    requires AllClosed(a) && a != []
    ensures Join(a) != ""
  {
    assert IsClosed(a[0]);
  }

  /** The first `ups` pieces are the "../" ones, and take up the first `area` characters. */
  predicate Area(kept: seq<string>, ups: nat, area: nat) {
    && ups <= |kept| && area == 3 * ups
    && (forall i :: 0 <= i < |kept| ==> (kept[i] == "../" <==> i < ups))
  }

  lemma AreaIsPrefix(kept: seq<string>, ups: nat, area: nat)
    requires Area(kept, ups, area) && AllClosed(kept)
    ensures area <= |Join(kept)| && (area == |Join(kept)| <==> ups == |kept|)
  {
    var a, b := kept[..ups], kept[ups..];
    assert kept == a + b;
    JoinConcat(a, b);
    JoinUps(a);
    if b != [] {
      JoinNonempty(b);
    }
  }

  /** The last piece begins at the area of leading "../" pieces or after a slash, and its only slash is at its end. */
  lemma LastPiece(kept: seq<string>, ups: nat, area: nat)
    requires AllClosed(kept) && Area(kept, ups, area) && area < |Join(kept)|
    ensures kept != [] && kept[|kept| - 1] != "../"
    ensures var j, base := Join(kept), |Join(kept[..|kept| - 1])|;
      && area <= base < |j| && j[..base] == Join(kept[..|kept| - 1])
      && (area < base ==> j[base - 1] == '/')
      && forall i :: base <= i < |j| - 1 ==> j[i] != '/'
  {
    AreaIsPrefix(kept, ups, area);
    var init, last := kept[..|kept| - 1], kept[|kept| - 1];
    assert kept == init + [last] && IsClosed(last);
    JoinConcat(init, [last]);
    assert Join([last]) == last;
    AreaIsPrefix(init, ups, area);
    if Join(init) != "" {
      JoinSlash(init, 0);
    }
  }

  function First(c: string): string
    requires c != ""
  {
    c[..Cut(c)]
  }

  /** How the first characters tell the pieces that are not transferred. */
  lemma FirstIs(c: string)
    requires c != ""
    ensures First(c) == "/" <==> c[0] == '/'
    ensures First(c) == "./" <==> |c| >= 2 && c[0] == '.' && c[1] == '/'
    ensures First(c) == "../" <==> |c| >= 3 && c[0] == '.' && c[1] == '.' && c[2] == '/'
  {
    if c[0] == '/' {
      CutIs(c, 1);
    } else if |c| >= 2 && c[1] == '/' {
      CutIs(c, 2);
    } else if |c| >= 3 && c[2] == '/' {
      CutIs(c, 3);
    }
  }

  function Tail(c: string): string
    requires c != ""
  {
    c[Cut(c)..]
  }

  /** Pushing what is left on `kept` gives `goal`. */
  ghost predicate Reached(rest: string, kept: seq<string>, ups: nat, area: nat, goal: seq<string>) {
    && IsCanonical(kept) && (rest != "" ==> AllClosed(kept))
    && Area(kept, ups, area)
    && PushAll(kept, Pieces(rest)) == goal
  }

  lemma PushJoin(kept: seq<string>, p: string)
    ensures |Join(Push(kept, p))| <= |Join(kept)| + |p|
    ensures Join(kept + [p]) == Join(kept) + p
  {
    JoinConcat(kept, [p]);
    assert Join([p]) == p;
    if kept != [] {
      var init, last := kept[..|kept| - 1], kept[|kept| - 1];
      assert kept == init + [last];
      JoinConcat(init, [last]);
    }
  }

  predicate GoesUp(kept: seq<string>, p: string) { p == "../" && (kept == [] || kept[|kept| - 1] == "../") }

  lemma PushArea(kept: seq<string>, ups: nat, area: nat, p: string)
    requires Area(kept, ups, area)
    ensures Area(Push(kept, p), if GoesUp(kept, p) then ups + 1 else ups, if GoesUp(kept, p) then area + 3 else area)
  {
  }

  lemma PushFirst(rest: string, kept: seq<string>)
    requires rest != ""
    ensures PushAll(kept, Pieces(rest)) == PushAll(Push(kept, First(rest)), Pieces(Tail(rest)))
  {
    var ps := Pieces(rest);
    assert ps == [First(rest)] + Pieces(Tail(rest));
    assert ps[1..] == Pieces(Tail(rest));
  }

  lemma ReachedNext(rest: string, kept: seq<string>, ups: nat, area: nat, goal: seq<string>)
    requires Reached(rest, kept, ups, area, goal) && rest != ""
    ensures var p := First(rest);
      Reached(Tail(rest), Push(kept, p), if GoesUp(kept, p) then ups + 1 else ups,
              if GoesUp(kept, p) then area + 3 else area, goal)
  {
    var p := First(rest);
    assert IsPiece(p) && (Tail(rest) != "" ==> IsClosed(p));
    PushFirst(rest, kept);
    PushCanonical(kept, p);
    PushArea(kept, ups, area, p);
  }

  ghost predicate Holds(buffer: array<char>, s: string)
    reads buffer
  {
    |s| < buffer.Length && forall i :: 0 <= i < |s| ==> buffer[i] == s[i]
  }

  /** Take the last piece back off the written text: to the slash before it, or to the end of the "../" area. */
  method SkipBack(bufferDst: array<char>, dst: nat, metaPathArea: nat, ghost kept: seq<string>, ghost ups: nat)
    returns (indexDst: nat)
    requires AllClosed(kept) && Area(kept, ups, metaPathArea)
    requires Holds(bufferDst, Join(kept)) && dst == |Join(kept)| && metaPathArea < dst
    ensures kept != [] && kept[|kept| - 1] != "../" && indexDst == |Join(kept[..|kept| - 1])|
    ensures Holds(bufferDst, Join(kept[..|kept| - 1]))
  {
    LastPiece(kept, ups, metaPathArea);
    ghost var text := Join(kept);
    ghost var base := |Join(kept[..|kept| - 1])|;
    assert forall i :: 0 <= i < base ==> Join(kept[..|kept| - 1])[i] == text[i];
    assert metaPathArea < base ==> bufferDst[base - 1] == text[base - 1];
    assert forall i :: base <= i < dst - 1 ==> bufferDst[i] == text[i] != '/';
    indexDst := dst - 1;
    while indexDst > metaPathArea && bufferDst[indexDst - 1] != '/'
      invariant base <= indexDst < dst
    {
      indexDst := indexDst - 1;
    }
  }

  /** What the source still holds, cleaned. */
  ghost predicate Ahead(bufferSrc: array<char>, src: nat, pathLen: nat, lower: bool, rest: string)
    reads bufferSrc
  {
    && src + |rest| == pathLen < bufferSrc.Length && bufferSrc[pathLen] == NUL
    && forall i :: 0 <= i < |rest| ==> rest[i] == CleanChar(bufferSrc[src + i], lower)
  }

  lemma AheadNext(bufferSrc: array<char>, src: nat, pathLen: nat, lower: bool, rest: string)
    requires Ahead(bufferSrc, src, pathLen, lower, rest) && rest != ""
    ensures Ahead(bufferSrc, src + Cut(rest), pathLen, lower, Tail(rest))
  {
    var n := Cut(rest);
    forall i | 0 <= i < |Tail(rest)| ensures Tail(rest)[i] == CleanChar(bufferSrc[src + n + i], lower) {
      assert Tail(rest)[i] == rest[n + i];
    }
  }

  /** Copy the first piece of `rest`, cleaned, behind the written text. */
  method Transfer(bufferSrc: array<char>, bufferDst: array<char>, pathLen: nat, src: nat, dst: nat, makeLowerCase: bool,
                  ghost rest: string, ghost text: string)
    returns (indexSrc: nat, indexDst: nat)
    requires bufferSrc != bufferDst && Ahead(bufferSrc, src, pathLen, makeLowerCase, rest) && rest != ""
    requires Holds(bufferDst, text) && dst == |text| <= src && pathLen < bufferDst.Length
    modifies bufferDst
    ensures indexSrc == src + Cut(rest) && indexDst == dst + Cut(rest)
    ensures Holds(bufferDst, text + First(rest))
  {
    indexSrc, indexDst := src, dst;
    while indexSrc < pathLen
      invariant src <= indexSrc <= pathLen && indexDst - dst == indexSrc - src
      invariant forall i :: 0 <= i < indexSrc - src ==> rest[i] != '/'
      invariant forall i :: 0 <= i < dst ==> bufferDst[i] == text[i]
      invariant forall i :: dst <= i < indexDst ==> bufferDst[i] == rest[i - dst]
    {
      var curChar := bufferSrc[indexSrc];
      ghost var k := indexSrc - src;
      assert rest[k] == CleanChar(bufferSrc[src + k], makeLowerCase);
      if makeLowerCase {
        curChar := ToLower(curChar);
      }
      if curChar == '\\' || curChar == '/' {
        curChar := '/';
      }
      bufferDst[indexDst] := curChar;
      indexDst := indexDst + 1;
      indexSrc := indexSrc + 1;
      if curChar == '/' {
        break;
      }
    }
    CutIs(rest, indexSrc - src);
  }

  /** One turn of the outer loop: what is done with the next piece is what pushing it on the stack does. */
  method NextPiece(bufferSrc: array<char>, bufferDst: array<char>, pathLen: nat, src: nat, dst: nat, area: nat,
                   makeLowerCase: bool, ghost rest: string, ghost kept: seq<string>, ghost ups: nat)
    returns (indexSrc: nat, indexDst: nat, metaPathArea: nat)
    requires bufferSrc != bufferDst && Ahead(bufferSrc, src, pathLen, makeLowerCase, rest) && rest != ""
    requires AllClosed(kept) && Area(kept, ups, area) && dst == |Join(kept)| <= src && pathLen < bufferDst.Length
    requires Holds(bufferDst, Join(kept))
    modifies bufferDst
    ensures var kept' := Push(kept, First(rest));
      && indexSrc == src + Cut(rest) && indexDst == |Join(kept')| && Holds(bufferDst, Join(kept'))
      && metaPathArea == (if GoesUp(kept, First(rest)) then area + 3 else area) && indexDst <= indexSrc
  {
    ghost var p := First(rest);
    FirstIs(rest);
    PushJoin(kept, p);
    AreaIsPrefix(kept, ups, area);
    indexSrc, indexDst, metaPathArea := src, dst, area;
    assert rest[0] == CleanChar(bufferSrc[src + 0], makeLowerCase);
    assert |rest| > 1 ==> rest[1] == CleanChar(bufferSrc[src + 1], makeLowerCase);
    assert |rest| > 2 ==> rest[2] == CleanChar(bufferSrc[src + 2], makeLowerCase);
    if bufferSrc[indexSrc] == '\\' || bufferSrc[indexSrc] == '/' {
      indexSrc := indexSrc + 1;
      return;
    } else {
      if bufferSrc[indexSrc] == '.' && (bufferSrc[indexSrc + 1] == '\\' || bufferSrc[indexSrc + 1] == '/') {
        indexSrc := indexSrc + 2;
        return;
      } else if bufferSrc[indexSrc] == '.' && bufferSrc[indexSrc + 1] == '.'
                && (bufferSrc[indexSrc + 2] == '\\' || bufferSrc[indexSrc + 2] == '/') {
        if indexDst > metaPathArea {
          indexDst := SkipBack(bufferDst, indexDst, metaPathArea, kept, ups);
          indexSrc := indexSrc + 3;
          return;
        } else {
          metaPathArea := metaPathArea + 3;
        }
      }
    }
    indexSrc, indexDst := Transfer(bufferSrc, bufferDst, pathLen, indexSrc, indexDst, makeLowerCase, rest, Join(kept));
  }

  /** The outer loop. */
  method FillBuffer(bufferSrc: array<char>, bufferDst: array<char>, pathLen: nat, makeLowerCase: bool, ghost c: string)
    returns (indexDst: nat)
    requires bufferSrc != bufferDst && Ahead(bufferSrc, 0, pathLen, makeLowerCase, c) && pathLen < bufferDst.Length
    modifies bufferDst
    ensures indexDst == |Join(PushAll([], Pieces(c)))| && Holds(bufferDst, Join(PushAll([], Pieces(c))))
  {
    ghost var goal := PushAll([], Pieces(c));
    var indexSrc, metaPathArea := 0, 0;
    indexDst := 0;
    ghost var rest, kept: seq<string>, ups := c, [], 0;
    while indexSrc < pathLen
      invariant indexDst == |Join(kept)| <= indexSrc <= pathLen
      invariant Ahead(bufferSrc, indexSrc, pathLen, makeLowerCase, rest)
      invariant Reached(rest, kept, ups, metaPathArea, goal) && Holds(bufferDst, Join(kept))
      decreases pathLen - indexSrc
    {
      ghost var p := First(rest);
      ReachedNext(rest, kept, ups, metaPathArea, goal);
      AheadNext(bufferSrc, indexSrc, pathLen, makeLowerCase, rest);
      indexSrc, indexDst, metaPathArea :=
        NextPiece(bufferSrc, bufferDst, pathLen, indexSrc, indexDst, metaPathArea, makeLowerCase, rest, kept, ups);
      rest, kept, ups := Tail(rest), Push(kept, p), if GoesUp(kept, p) then ups + 1 else ups;
    }
    assert kept == goal;
  }

  /** `NormalizeFilePath`. The source buffer ends in a zero, and so does the result. */
  method NormalizeFilePath(init: string, makeLowerCase: bool) returns (normalized: string)
    ensures normalized == CString(Normal(init, makeLowerCase))
    ensures IsNormalText(normalized, makeLowerCase)
  {
    var pathLen := |init|;
    var bufferSrc := new char[pathLen + 1](i requires 0 <= i => if i < |init| then init[i] else NUL);
    var bufferDst := new char[if pathLen > 1023 then pathLen + 1 else 1024];
    ghost var c := Clean(init, makeLowerCase);
    var indexDst := FillBuffer(bufferSrc, bufferDst, pathLen, makeLowerCase, c);
    normalized := ReadCString(bufferDst, indexDst, Join(PushAll([], Pieces(c))));
    ResultChars(init, makeLowerCase);
  }

  /** Put the final zero, then `std::string(bufferDst)`. */
  method ReadCString(buffer: array<char>, end: nat, ghost text: string) returns (s: string)
    requires Holds(buffer, text) && end == |text|
    modifies buffer
    ensures s == CString(text)
  {
    buffer[end] := NUL;
    var n := 0;
    while buffer[n] != NUL
      invariant n <= end && forall i :: 0 <= i < n ==> buffer[i] != NUL
      decreases end - n
    {
      n := n + 1;
    }
    assert buffer[..n] == text[..n];
    CStringIs(text, n);
    s := buffer[..n];
  }

  lemma {:induction false} CStringIs(s: string, n: nat)
    requires n <= |s| && NUL !in s[..n] && (n < |s| ==> s[n] == NUL)
    ensures CString(s) == s[..n]
  {
    if n > 0 {
      assert s[1..][..n - 1] == s[..n][1..];
      CStringIs(s[1..], n - 1);
    }
  }
}
