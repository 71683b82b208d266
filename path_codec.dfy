/**
 * The path codec of ConfigurationUtil: a key path (a list of segments) is
 * written as one string whose segments are joined with `.`, a backslash
 * escaping every `.` and `\` inside a segment.
 *
 * The Java code uses regular expressions; here every one of them is a
 * left-to-right scan over the characters.
 */
module PathCodec {

  /** `escape` applied to one character. */
  function EscapeChar(c: char): string {
    if c == '.' || c == '\\' then ['\\', c] else [c]
  }

  /** `escape(key)`: puts `\` before every `.` and every `\`. */
  function Escape(key: string): (r: string)
    ensures |r| >= |key|
    ensures key != [] ==> r != [] && r[|r| - 1] == key[|key| - 1]
  {
    if key == [] then [] else EscapeChar(key[0]) + Escape(key[1..])
  }

  /**
   * `unescape(key)`: replaces `\.` by `.` and `\\` by `\`, matching pairs from
   * left to right as `replaceAll` does; any other character is kept.
   */
  function Unescape(key: string): (r: string)
    ensures |r| <= |key|
  {
    if |key| >= 2 && key[0] == '\\' && (key[1] == '.' || key[1] == '\\') then
      [key[1]] + Unescape(key[2..])
    else if key == [] then
      []
    else
      [key[0]] + Unescape(key[1..])
  }

  /** `join(keys)`: every segment escaped, the results joined with `.`. */
  function Join(keys: seq<string>): string {
    if keys == [] then ""
    else if |keys| == 1 then Escape(keys[0])
    else Escape(keys[0]) + "." + Join(keys[1..])
  }

  /** `unescape` applied to every piece. */
  function UnescapeAll(pieces: seq<string>): (r: seq<string>)
    ensures |r| == |pieces|
    ensures forall i :: 0 <= i < |pieces| ==> r[i] == Unescape(pieces[i])
  {
    seq(|pieces|, i requires 0 <= i < |pieces| => Unescape(pieces[i]))
  }

  /** `escape` applied to every segment. */
  function EscapeAll(keys: seq<string>): (r: seq<string>)
    ensures |r| == |keys|
    ensures forall i :: 0 <= i < |keys| ==> r[i] == Escape(keys[i])
  {
    seq(|keys|, i requires 0 <= i < |keys| => Escape(keys[i]))
  }

  /** `p` prepended to the first of the pieces `ps`. */
  function Prepend(p: string, ps: seq<string>): (r: seq<string>)
    requires ps != []
    ensures |r| == |ps| && r[0] == p + ps[0] && r[1..] == ps[1..]
  {
    [p + ps[0]] + ps[1..]
  }

  // ---------------------------------------------------------------------
  // `keys.split("(?<!\\\\)[.]", -1)`, as written

  /**
   * The pieces of `s` between the dots that are not immediately preceded by a
   * backslash; `afterBackslash` says whether the character before `s` is a
   * backslash. The limit `-1` keeps empty pieces, and the empty string yields
   * one empty piece.
   */
  function RegexPiecesFrom(s: string, afterBackslash: bool): (r: seq<string>)
    ensures |r| >= 1
  {
    if s == [] then [""]
    else if s[0] == '.' && !afterBackslash then [""] + RegexPiecesFrom(s[1..], false)
    else Prepend([s[0]], RegexPiecesFrom(s[1..], s[0] == '\\'))
  }

  /** The array that the regular-expression split at the start of `split` returns. */
  function RegexPieces(s: string): seq<string> {
    RegexPiecesFrom(s, false)
  }

  /** `split(keys)` exactly as written: the regex split, then `unescape` on every piece. */
  function SplitAsWritten(keys: string): seq<string> {
    UnescapeAll(RegexPieces(keys))
  }

  // ---------------------------------------------------------------------
  // Splitting on unescaped dots (the documented intent of `split`)

  /**
   * The pieces of `s` between the dots that are not escaped: a backslash
   * escapes the character after it, so a dot after an escaped backslash
   * (`\\.`) is a separator.
   */
  function Pieces(s: string): (r: seq<string>)
    ensures |r| >= 1
  {
    if s == [] then [""]
    else if s[0] == '.' then [""] + Pieces(s[1..])
    else if s[0] == '\\' && |s| >= 2 then Prepend(s[..2], Pieces(s[2..]))
    else Prepend([s[0]], Pieces(s[1..]))
  }

  /** The segments `split(keys)` is documented to return. */
  function Segments(keys: string): (r: seq<string>)
    ensures |r| >= 1
  {
    UnescapeAll(Pieces(keys))
  }

  /**
   * `split(keys)`: the pieces are put into an array, which a loop rewrites in
   * place with `unescape`. The pieces are the documented ones (`Pieces`), not
   * those of the lookbehind regex (`SplitAsWritten`); `toPrefixMap` and the
   * read-back of `nodeToFlatMap`'s keys use this split.
   */
  method Split(keys: string) returns (r: seq<string>)
    ensures r == Segments(keys)
  {
    var pieces := Pieces(keys);
    var split := new string[|pieces|](i requires 0 <= i < |pieces| => pieces[i]);
    for i := 0 to split.Length
      invariant forall j :: 0 <= j < i ==> split[j] == Unescape(pieces[j])
      invariant forall j :: i <= j < split.Length ==> split[j] == pieces[j]
    {
      split[i] := Unescape(split[i]);
    }
    r := split[..];
  }

  // ---------------------------------------------------------------------
  // Properties

  predicate EndsInBackslash(s: string) {
    s != [] && s[|s| - 1] == '\\'
  }

  /** `unescape` reads an escaped character back, whatever follows it. */
  lemma UnescapeEscapeChar(c: char, x: string)
    ensures Unescape(EscapeChar(c) + x) == [c] + Unescape(x)
  {
    var s := EscapeChar(c) + x;
    if c == '.' || c == '\\' {
      assert s[0] == '\\' && s[1] == c && s[2..] == x;
    } else {
      assert s[0] == c && s[1..] == x;
    }
  }

  /** `escape` of a non-empty string, with more text after it. */
  lemma EscapeConsAppend(a: string, t: string)
    requires a != []
    ensures Escape(a) + t == EscapeChar(a[0]) + (Escape(a[1..]) + t)
  {
  }

  /** Unescaping undoes escaping, also when more text follows. */
  lemma {:induction false} UnescapeEscapeAppend(a: string, t: string)
    ensures Unescape(Escape(a) + t) == a + Unescape(t)
  {
    if a == [] {
      assert Escape(a) + t == t;
    } else {
      var x := Escape(a[1..]) + t;
      calc {
        Unescape(Escape(a) + t);
      == { EscapeConsAppend(a, t); }
        Unescape(EscapeChar(a[0]) + x);
      == { UnescapeEscapeChar(a[0], x); }
        [a[0]] + Unescape(x);
      == { UnescapeEscapeAppend(a[1..], t); }
        [a[0]] + (a[1..] + Unescape(t));
      == { assert a == [a[0]] + a[1..]; }
        a + Unescape(t);
      }
    }
  }

  /** `unescape(escape(s)) == s` for every string `s`. */
  lemma UnescapeEscape(s: string)
    ensures Unescape(Escape(s)) == s
  {
    UnescapeEscapeAppend(s, "");
    assert Escape(s) + "" == Escape(s);
    assert s + "" == s;
  }

  /** A string without `.` and `\` is its own escape. */
  lemma {:induction false} EscapePlain(s: string)
    requires forall i :: 0 <= i < |s| ==> s[i] != '.' && s[i] != '\\'
    ensures Escape(s) == s
  {
    if s != [] {
      EscapePlain(s[1..]);
      assert s == [s[0]] + s[1..];
    }
  }

  lemma PrependPrepend(p: string, q: string, ps: seq<string>)
    requires ps != []
    ensures Prepend(p, Prepend(q, ps)) == Prepend(p + q, ps)
  {
    assert p + (q + ps[0]) == (p + q) + ps[0];
  }

  lemma PrependEmpty(ps: seq<string>)
    requires ps != []
    ensures Prepend("", ps) == ps
  {
    assert "" + ps[0] == ps[0];
    assert ps == [ps[0]] + ps[1..];
  }

  /** One step of `Pieces` over a character that is neither `.` nor `\`. */
  lemma PiecesPlain(c: char, x: string)
    requires c != '.' && c != '\\'
    ensures Pieces([c] + x) == Prepend([c], Pieces(x))
  {
    assert ([c] + x)[1..] == x;
  }

  /** One step of `Pieces` over an escape pair. */
  lemma PiecesPair(c: char, x: string)
    ensures Pieces(['\\', c] + x) == Prepend(['\\', c], Pieces(x))
  {
    var s := ['\\', c] + x;
    assert s[..2] == ['\\', c] && s[2..] == x;
  }

  /** One step of `Pieces` over a separator. */
  lemma PiecesDot(x: string)
    ensures Pieces(['.'] + x) == [""] + Pieces(x)
  {
    assert (['.'] + x)[1..] == x;
  }

  lemma EscapeAllCons(keys: seq<string>)
    requires keys != []
    ensures EscapeAll(keys) == [Escape(keys[0])] + EscapeAll(keys[1..])
  {
  }

  /** No dot inside an escaped segment separates pieces. */
  lemma {:induction false} PiecesEscapeAppend(a: string, t: string)
    ensures Pieces(Escape(a) + t) == Prepend(Escape(a), Pieces(t))
  {
    if a == [] {
      assert Escape(a) + t == t;
      PrependEmpty(Pieces(t));
    } else {
      var c := a[0];
      var x := Escape(a[1..]) + t;
      calc {
        Pieces(Escape(a) + t);
      == { EscapeConsAppend(a, t); }
        Pieces(EscapeChar(c) + x);
      == { if c == '.' || c == '\\' { PiecesPair(c, x); } else { PiecesPlain(c, x); } }
        Prepend(EscapeChar(c), Pieces(x));
      == { PiecesEscapeAppend(a[1..], t); }
        Prepend(EscapeChar(c), Prepend(Escape(a[1..]), Pieces(t)));
      == { PrependPrepend(EscapeChar(c), Escape(a[1..]), Pieces(t)); }
        Prepend(Escape(a), Pieces(t));
      }
    }
  }

  /** A joined path of two or more segments: the first escaped, a dot, the rest joined. */
  lemma JoinCons(keys: seq<string>)
    requires |keys| >= 2
    ensures Join(keys) == Escape(keys[0]) + (['.'] + Join(keys[1..]))
  {
    assert Escape(keys[0]) + "." + Join(keys[1..]) == Escape(keys[0]) + (['.'] + Join(keys[1..]));
  }

  /** The pieces of a joined path of two or more segments, from those of its tail. */
  lemma PiecesJoinCons(keys: seq<string>)
    requires |keys| >= 2 && Pieces(Join(keys[1..])) == EscapeAll(keys[1..])
    ensures Pieces(Join(keys)) == EscapeAll(keys)
  {
    var rest := Join(keys[1..]);
    var t := ['.'] + rest;
    var e := EscapeAll(keys[1..]);
    calc {
      Pieces(Join(keys));
    == { JoinCons(keys); }
      Pieces(Escape(keys[0]) + t);
    == { PiecesEscapeAppend(keys[0], t); }
      Prepend(Escape(keys[0]), Pieces(t));
    == { PiecesDot(rest); }
      Prepend(Escape(keys[0]), [""] + e);
    == { assert ([""] + e)[1..] == e; assert Escape(keys[0]) + "" == Escape(keys[0]); }
      [Escape(keys[0])] + e;
    == { EscapeAllCons(keys); }
      EscapeAll(keys);
    }
  }

  /** The pieces of a joined path are the escaped segments. */
  lemma {:induction false} PiecesJoin(keys: seq<string>)
    requires keys != []
    ensures Pieces(Join(keys)) == EscapeAll(keys)
  {
    if |keys| == 1 {
      PiecesEscapeAppend(keys[0], "");
      assert Escape(keys[0]) + "" == Escape(keys[0]);
      assert EscapeAll(keys) == [Escape(keys[0])];
    } else {
      PiecesJoin(keys[1..]);
      PiecesJoinCons(keys);
    }
  }

  /**
   * `split(join(keys)) == keys` for every non-empty list, when `split` splits
   * on unescaped dots.
   */
  lemma SplitJoin(keys: seq<string>)
    requires keys != []
    ensures Segments(Join(keys)) == keys
  {
    PiecesJoin(keys);
    forall i | 0 <= i < |keys|
      ensures Segments(Join(keys))[i] == keys[i]
    {
      UnescapeEscape(keys[i]);
    }
  }

  /** Joining one more segment appends a dot and the segment escaped. */
  lemma {:induction false} JoinSnoc(keys: seq<string>, key: string)
    requires keys != []
    ensures Join(keys + [key]) == Join(keys) + "." + Escape(key)
    decreases |keys|
  {
    var k := keys + [key];
    assert k[0] == keys[0];
    if |keys| == 1 {
      assert k[1..] == [key];
      assert Join(k) == Escape(keys[0]) + "." + Escape(key);
    } else {
      assert k[1..] == keys[1..] + [key];
      JoinSnoc(keys[1..], key);
      var head, rest := Escape(keys[0]) + ".", Join(keys[1..]);
      assert Join(k) == head + (rest + "." + Escape(key));
      assert Join(keys) == head + rest;
      assert head + (rest + "." + Escape(key)) == (head + rest) + "." + Escape(key);
    }
  }

  /** `appendKey(prefix, key)`: a new key path, `prefix` followed by `key`. */
  function AppendKey(prefix: seq<string>, key: string): (r: seq<string>)
    ensures |r| == |prefix| + 1
    ensures r[..|prefix|] == prefix && r[|prefix|] == key
  {
    if prefix == [] then [key] else prefix + [key]
  }

  /**
   * The string form of an appended key path is the old one, a dot and the new
   * key escaped, and `split` reads the appended path back.
   */
  lemma JoinAppendKey(prefix: seq<string>, key: string)
    ensures Join(AppendKey(prefix, key)) == if prefix == [] then Escape(key) else Join(prefix) + "." + Escape(key)
    ensures Segments(Join(AppendKey(prefix, key))) == AppendKey(prefix, key)
  {
    if prefix != [] {
      JoinSnoc(prefix, key);
    }
    SplitJoin(AppendKey(prefix, key));
  }

  /** `join([]) == ""` while `split("") == [""]`: the two are not inverse on the empty list. */
  lemma JoinSplitEmpty()
    ensures Join([]) == ""
    ensures Segments("") == [""]
    ensures SplitAsWritten("") == [""]
  {
  }

  /** One step of the regex split over a character that does not separate. */
  lemma RegexStep(c: char, x: string, afterBackslash: bool)
    requires c != '.' || afterBackslash
    ensures RegexPiecesFrom([c] + x, afterBackslash) == Prepend([c], RegexPiecesFrom(x, c == '\\'))
  {
    assert ([c] + x)[1..] == x;
  }

  /** One step of the regex split over a dot that separates. */
  lemma RegexDot(x: string)
    ensures RegexPiecesFrom(['.'] + x, false) == [""] + RegexPiecesFrom(x, false)
  {
    assert (['.'] + x)[1..] == x;
  }

  /** One step of the regex split over an escaped character. */
  lemma RegexEscapeChar(c: char, x: string, afterBackslash: bool)
    ensures RegexPiecesFrom(EscapeChar(c) + x, afterBackslash) == Prepend(EscapeChar(c), RegexPiecesFrom(x, c == '\\'))
  {
    if c == '.' || c == '\\' {
      RegexStep(c, x, true);
      RegexStep('\\', [c] + x, afterBackslash);
      assert ['\\', c] + x == ['\\'] + ([c] + x);
      PrependPrepend(['\\'], [c], RegexPiecesFrom(x, c == '\\'));
      assert ['\\'] + [c] == ['\\', c] == EscapeChar(c);
    } else {
      RegexStep(c, x, afterBackslash);
    }
  }

  lemma EndsInBackslashCons(a: string)
    requires a != []
    ensures EndsInBackslash(a) == if a[1..] == [] then a[0] == '\\' else EndsInBackslash(a[1..])
  {
  }

  /** The regex split ignores the dots inside an escaped segment. */
  lemma {:induction false} RegexPiecesEscapeAppend(a: string, t: string, afterBackslash: bool)
    ensures var after := if a == [] then afterBackslash else EndsInBackslash(a);
      RegexPiecesFrom(Escape(a) + t, afterBackslash) == Prepend(Escape(a), RegexPiecesFrom(t, after))
  {
    if a == [] {
      assert Escape(a) + t == t;
      PrependEmpty(RegexPiecesFrom(t, afterBackslash));
    } else {
      var c := a[0];
      var x := Escape(a[1..]) + t;
      var u := RegexPiecesFrom(t, EndsInBackslash(a));
      calc {
        RegexPiecesFrom(Escape(a) + t, afterBackslash);
      == { EscapeConsAppend(a, t); }
        RegexPiecesFrom(EscapeChar(c) + x, afterBackslash);
      == { RegexEscapeChar(c, x, afterBackslash); }
        Prepend(EscapeChar(c), RegexPiecesFrom(x, c == '\\'));
      == { RegexPiecesEscapeAppend(a[1..], t, c == '\\'); EndsInBackslashCons(a); }
        Prepend(EscapeChar(c), Prepend(Escape(a[1..]), u));
      == { PrependPrepend(EscapeChar(c), Escape(a[1..]), u); }
        Prepend(Escape(a), u);
      }
    }
  }

  /**
   * `split(join(keys)) == keys` holds for the regex split as written provided
   * no segment other than the last ends in a backslash.
   */
  lemma {:induction false} SplitAsWrittenJoin(keys: seq<string>)
    requires keys != []
    requires forall i :: 0 <= i < |keys| - 1 ==> !EndsInBackslash(keys[i])
    ensures SplitAsWritten(Join(keys)) == keys
  {
    RegexPiecesJoin(keys);
    forall i | 0 <= i < |keys|
      ensures SplitAsWritten(Join(keys))[i] == keys[i]
    {
      UnescapeEscape(keys[i]);
    }
  }

  /** The regex pieces of a joined path, when no inner segment ends in a backslash. */
  lemma {:induction false} RegexPiecesJoin(keys: seq<string>)
    requires keys != []
    requires forall i :: 0 <= i < |keys| - 1 ==> !EndsInBackslash(keys[i])
    ensures RegexPieces(Join(keys)) == EscapeAll(keys)
  {
    if |keys| == 1 {
      RegexPiecesEscapeAppend(keys[0], "", false);
      assert Escape(keys[0]) + "" == Escape(keys[0]);
      assert EscapeAll(keys) == [Escape(keys[0])];
    } else {
      var rest := Join(keys[1..]);
      var t := ['.'] + rest;
      var e := EscapeAll(keys[1..]);
      calc {
        RegexPieces(Join(keys));
      == { JoinCons(keys); }
        RegexPiecesFrom(Escape(keys[0]) + t, false);
      == { RegexPiecesEscapeAppend(keys[0], t, false); assert !EndsInBackslash(keys[0]); }
        Prepend(Escape(keys[0]), RegexPiecesFrom(t, false));
      == { RegexDot(rest); RegexPiecesJoin(keys[1..]); }
        Prepend(Escape(keys[0]), [""] + e);
      == { assert ([""] + e)[1..] == e; assert Escape(keys[0]) + "" == Escape(keys[0]); }
        [Escape(keys[0])] + e;
      == { EscapeAllCons(keys); }
        EscapeAll(keys);
      }
    }
  }

  /**
   * With a segment ending in a backslash, the regex split does not invert
   * `join`: `["\", "b"]` joins to `\\.b`, whose dot follows a backslash, so it
   * splits back to the single segment `\.b`.
   */
  lemma SplitAsWrittenCounterexample()
    ensures Join(["\\", "b"]) == "\\\\.b"
    ensures SplitAsWritten(Join(["\\", "b"])) == ["\\.b"]
    ensures SplitAsWritten(Join(["\\", "b"])) != ["\\", "b"]
  {
    var s := "\\\\.b";
    assert Escape("\\") == "\\\\";
    assert Escape("b") == "b";
    assert Join(["\\", "b"]) == s;
    assert RegexPiecesFrom("", false) == [""];
    assert "b"[1..] == "";
    assert RegexPiecesFrom("b", false) == ["b"];
    assert ".b"[1..] == "b";
    assert ".b"[0] == '.' && ['.'] + "b" == ".b";
    assert RegexPiecesFrom(".b", true) == [['.'] + "b"] + [];
    assert RegexPiecesFrom(".b", true) == [".b"];
    assert "\\.b"[1..] == ".b" && "\\.b"[0] == '\\' && ['\\'] + ".b" == "\\.b";
    assert RegexPiecesFrom("\\.b", true) == [['\\'] + ".b"] + [];
    assert RegexPiecesFrom("\\.b", true) == ["\\.b"];
    assert s[1..] == "\\.b" && s[0] == '\\' && ['\\'] + "\\.b" == s;
    assert RegexPieces(s) == [['\\'] + "\\.b"] + [];
    assert RegexPieces(s) == [s];
    assert Unescape("") == "";
    assert Unescape("b") == "b";
    assert Unescape(".b") == ".b";
    assert s[2..] == ".b";
    assert Unescape(s) == "\\.b";
  }

}
