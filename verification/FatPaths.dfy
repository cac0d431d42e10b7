/** Which paths the tree builder takes, said of the characters of the path alone. */
module FatPaths {
  import opened FatNames
  import opened FatTree

  /** ASCII from the blank on, but no capital letter and none of the nine characters that a name must not hold. */
  predicate Permitted(c: char) {
    var x := c as int;
    || 32 <= x <= 33 || 35 <= x <= 41 || 43 <= x <= 46 || 48 <= x <= 57 || x == 59 || x == 61 || x == 64 || x == 91
    || 93 <= x <= 123 || 125 <= x <= 127
  }

  lemma PermittedExactly(c: char)
    ensures Permitted(c) <==> c < 128 as char && !Capital(c) && !Forbidden(c)
  {
  }

  /** One to 255 permitted characters, the last of them neither a blank nor a dot. */
  predicate Component(c: string) {
    1 <= |c| <= 255 && (forall i :: 0 <= i < |c| ==> Permitted(c[i])) && c[|c| - 1] != ' ' && c[|c| - 1] != '.'
  }

  lemma ComponentExactly(c: string)
    ensures ValidComponent(c) <==> Component(c)
  {
    forall i | 0 <= i < |c| ensures Permitted(c[i]) <==> c[i] < 128 as char && !Capital(c[i]) && !Forbidden(c[i]) {
      PermittedExactly(c[i]);
    }
  }

  // ----- Paths

  predicate Border(s: string, i: int) { i == -1 || i == |s| || (0 <= i < |s| && s[i] == '/') }

  /** The characters from i up to j are what stands between two slashes, or between a slash and an end. */
  predicate Piece(s: string, i: int, j: int) {
    0 <= i <= j <= |s| && Border(s, i - 1) && Border(s, j) && forall k :: i <= k < j ==> s[k] != '/'
  }

  function Slashes(s: string, from: nat): (n: nat)
    requires from <= |s|
    decreases |s| - from
  {
    if from == |s| then 0 else (if s[from] == '/' then 1 else 0) + Slashes(s, from + 1)
  }

  lemma {:induction false} NextSlash(s: string, from: nat, slash: nat)
    requires from <= slash <= |s| && forall k :: from <= k < slash ==> s[k] != '/'
    ensures Slashes(s, from) == Slashes(s, slash)
    decreases slash - from
  {
    if from < slash {
      NextSlash(s, from + 1, slash);
    }
  }

  lemma {:induction false} SlashesCount(s: string, from: nat)
    requires from <= |s|
    ensures |Split(s, from)| == Slashes(s, from) + 1
    decreases |s| - from
  {
    var slash := First(s, '/', from);
    NextSlash(s, from, slash);
    if slash < |s| {
      SlashesCount(s, slash + 1);
    }
  }

  lemma {:induction false} ComponentIsPiece(s: string, from: nat, k: nat) returns (i: nat, j: nat)
    requires from <= |s| && Border(s, from - 1) && k < |Split(s, from)|
    ensures from <= i && Piece(s, i, j) && Split(s, from)[k] == s[i..j]
    decreases |s| - from
  {
    var slash := First(s, '/', from);
    if k == 0 {
      i, j := from, slash;
    } else {
      i, j := ComponentIsPiece(s, slash + 1, k - 1);
    }
  }

  lemma {:induction false} PieceIsComponent(s: string, from: nat, i: nat, j: nat) returns (k: nat)
    requires from <= i && Border(s, from - 1) && Piece(s, i, j)
    ensures k < |Split(s, from)| && Split(s, from)[k] == s[i..j]
    decreases |s| - from
  {
    var slash := First(s, '/', from);
    if i <= slash {
      assert i == from && j == slash;
      k := 0;
    } else {
      k := PieceIsComponent(s, slash + 1, i, j);
      k := k + 1;
    }
  }

  /** A path is taken exactly when it has at most three slashes and every piece between them is a component. */
  lemma PathExactly(path: string)
    ensures PathOk(path) <==> Slashes(path, 0) <= 3 && forall i, j :: Piece(path, i, j) ==> Component(path[i..j])
  {
    SlashesCount(path, 0);
    if PathOk(path) {
      forall i, j | Piece(path, i, j) ensures Component(path[i..j]) {
        PieceValid(path, i, j);
      }
    } else if Slashes(path, 0) <= 3 && forall i, j :: Piece(path, i, j) ==> Component(path[i..j]) {
      PiecesSuffice(path);
    }
  }

  lemma PieceValid(path: string, i: int, j: int)
    requires PathOk(path) && Piece(path, i, j)
    ensures Component(path[i..j])
  {
    var k := PieceIsComponent(path, 0, i, j);
    assert ValidAt(Components(path), k);
    ComponentExactly(path[i..j]);
  }

  lemma PiecesSuffice(path: string)
    requires Slashes(path, 0) <= 3 && forall i, j :: Piece(path, i, j) ==> Component(path[i..j])
    ensures PathOk(path)
  {
    SlashesCount(path, 0);
    var parts := Components(path);
    forall k | 0 <= k < |parts| ensures ValidAt(parts, k) && parts[k] !in {"", ".", ".."} {
      var i, j := ComponentIsPiece(path, 0, k);
      ComponentExactly(parts[k]);
    }
    NoBackslash(path);
  }

  lemma NoBackslash(path: string)
    requires forall i, j :: Piece(path, i, j) ==> Component(path[i..j])
    ensures path != "" && path[0] != '/' && '\\' !in path
  {
    if path == "" || path[0] == '/' {
      assert Piece(path, 0, 0);
    }
    forall k | 0 <= k < |path| ensures path[k] != '\\' {
      if path[k] != '/' {
        var i, j := PieceAround(path, k);
        assert path[i..j][k - i] == path[k];
      }
    }
  }

  lemma PieceAround(s: string, k: nat) returns (i: nat, j: nat)
    requires k < |s| && s[k] != '/'
    ensures i <= k < j && Piece(s, i, j)
  {
    i := Last(s, '/', k) + 1;
    j := First(s, '/', k);
  }
}
