/** Maps as text: entries `key=value` joined by commas, and split again. */
module EnvMap {
  import opened Counting

  const ENTRY_SEP := ','
  const KEY_VALUE_SEP := '='

  // ------------------------------------------------------------------ the string library

  /** Cuts `s` at every `sep`; the empty string is one empty piece. */
  function Split(s: string, sep: char): (parts: seq<string>)
    ensures |parts| >= 1
    decreases |s|
  {
    if s == "" then [""]
    else
      var rest := Split(s[1..], sep);
      if s[0] == sep then [""] + rest else Lead(s[0], rest)
  }

  /** `c` in front of the first piece. */
  function Lead(c: char, parts: seq<string>): (r: seq<string>)
    requires parts != []
    ensures |r| == |parts|
  {
    [[c] + parts[0]] + parts[1..]
  }

  function Join(parts: seq<string>, sep: char): string {
    if parts == [] then ""
    else if |parts| == 1 then parts[0]
    else parts[0] + [sep] + Join(parts[1..], sep)
  }

  /** The first position of `c`, if there is one. */
  function Index(s: string, c: char): (i: nat)
    ensures i <= |s| && (c in s <==> i < |s|)
    ensures forall k :: 0 <= k < i ==> s[k] != c
    ensures i < |s| ==> s[i] == c
  {
    if s == "" || s[0] == c then 0 else 1 + Index(s[1..], c)
  }

  // ------------------------------------------------------------------ splitting

  /** One piece adds its entry; a piece without `=` is passed over. */
  function AddEntry(pairs: map<string, string>, piece: string): map<string, string> {
    if KEY_VALUE_SEP in piece then
      var i := Index(piece, KEY_VALUE_SEP);
      pairs[piece[..i] := piece[i + 1..]]
    else pairs
  }

  /** The entries of all pieces, later ones winning. */
  function Entries(pieces: seq<string>): map<string, string> {
    if pieces == [] then map[] else AddEntry(Entries(pieces[..|pieces| - 1]), pieces[|pieces| - 1])
  }

  function Parsed(value: string): map<string, string> {
    Entries(Split(value, ENTRY_SEP))
  }

  method SplitMap(value: string) returns (pairs: map<string, string>)
    ensures pairs == Parsed(value)
    ensures forall k, v :: (k in pairs && pairs[k] == v) <==> LastBinding(Split(value, ','), k, v)
  {
    forall k, v
      ensures (k in Parsed(value) && Parsed(value)[k] == v) <==> LastBinding(Split(value, ','), k, v)
    {
      EntriesIff(Split(value, ','), k, v);
    }
    var values := Split(value, ENTRY_SEP);
    pairs := map[];
    for n := 0 to |values|
      invariant pairs == Entries(values[..n])
    {
      var pair := values[n];
      assert values[..n + 1][..n] == values[..n];
      if KEY_VALUE_SEP in pair {
        var i := Index(pair, KEY_VALUE_SEP);
        pairs := pairs[pair[..i] := pair[i + 1..]];
      }
    }
    assert values[..|values|] == values;
  }

  // ------------------------------------------------------------------ joining

  function Piece(key: string, value: string): string {
    key + [KEY_VALUE_SEP] + value
  }

  function Pieces(m: map<string, string>, order: seq<string>): seq<string>
    requires forall k :: k in order ==> k in m
  {
    seq(|order|, i requires 0 <= i < |order| => Piece(order[i], m[order[i]]))
  }

  function Joined(m: map<string, string>, order: seq<string>): string
    requires forall k :: k in order ==> k in m
  {
    Join(Pieces(m, order), ENTRY_SEP)
  }

  /** Joins the entries in whatever order Go walks the map. */
  method JoinMap(m: map<string, string>) returns (r: string)
    ensures exists order :: IsOrder(order, m) && r == Joined(m, order)
  {
    hide Join, Joined, Pieces, Piece, IsOrder;
    ghost var order := [];
    var values := [];
    var left := m;
    Unwalked(m);
    while left != map[]
      invariant Walked(m, left, order)
      invariant values == Pieces(m, order)
      decreases |left|
    {
      var key :| key in left;
      OneMore(m, left, order, key);
      values := values + [Piece(key, left[key])];
      order := order + [key];
      left := left - {key};
    }
    r := Join(values, ENTRY_SEP);
    AllWalked(m, order);
  }

  /** `order` is a walk of `m` with `left` still to come. */
  ghost predicate Walked(m: map<string, string>, left: map<string, string>, order: seq<string>) {
    && left.Keys <= m.Keys && (forall k :: k in left ==> left[k] == m[k])
    && (forall k :: k in order <==> k in m && k !in left)
    && (forall i, j :: 0 <= i < j < |order| ==> order[i] != order[j])
  }

  lemma Unwalked(m: map<string, string>)
    ensures Walked(m, m, []) && Pieces(m, []) == []
  {}

  lemma OneMore(m: map<string, string>, left: map<string, string>, order: seq<string>, key: string)
    requires Walked(m, left, order) && key in left
    ensures Walked(m, left - {key}, order + [key])
    ensures Pieces(m, order + [key]) == Pieces(m, order) + [Piece(key, left[key])]
  {
    hide Piece;
    assert forall k :: k in order + [key] <==> k in order || k == key;
  }

  lemma AllWalked(m: map<string, string>, order: seq<string>)
    requires Walked(m, map[], order)
    ensures IsOrder(order, m) && Join(Pieces(m, order), ENTRY_SEP) == Joined(m, order)
  {
    hide Join;
  }

  // ------------------------------------------------------------------ the round trip

  /** No separator where the text would be cut in the wrong place. */
  predicate CleanEntry(key: string, value: string) {
    ENTRY_SEP !in key && KEY_VALUE_SEP !in key && ENTRY_SEP !in value
  }

  predicate Clean(m: map<string, string>) {
    forall k :: k in m ==> CleanEntry(k, m[k])
  }

  lemma {:induction false} SplitNone(s: string, sep: char)
    requires sep !in s
    ensures Split(s, sep) == [s]
  {
    if s != "" {
      assert sep !in s[1..];
      SplitNone(s[1..], sep);
      assert [s[0]] + s[1..] == s;
    }
  }

  /** A separator cuts: what is before it and what is after it split apart. */
  lemma {:induction false} SplitAt(s: string, t: string, sep: char)
    ensures Split(s + [sep] + t, sep) == Split(s, sep) + Split(t, sep)
    decreases |s|
  {
    hide Lead;
    var whole := s + [sep] + t;
    if s == "" {
      assert whole[1..] == t;
    } else {
      assert whole[0] == s[0] && whole[1..] == s[1..] + [sep] + t;
      SplitAt(s[1..], t, sep);
      var a, b := Split(s[1..], sep), Split(t, sep);
      LeadAppend(s[0], a, b);
      assert [""] + (a + b) == [""] + a + b;
    }
  }

  lemma LeadAppend(c: char, a: seq<string>, b: seq<string>)
    requires a != []
    ensures Lead(c, a + b) == Lead(c, a) + b
  {
    assert (a + b)[1..] == a[1..] + b;
  }

  lemma {:induction false} SplitJoin(parts: seq<string>, sep: char)
    requires parts != [] && forall i :: 0 <= i < |parts| ==> sep !in parts[i]
    ensures Split(Join(parts, sep), sep) == parts
    decreases |parts|
  {
    hide Split;
    SplitNone(parts[0], sep);
    if |parts| > 1 {
      SplitAt(parts[0], Join(parts[1..], sep), sep);
      SplitJoin(parts[1..], sep);
    }
  }

  lemma {:induction false} SplitPieces(s: string, sep: char)
    ensures forall i :: 0 <= i < |Split(s, sep)| ==> sep !in Split(s, sep)[i]
    decreases |s|
  {
    if s != "" {
      SplitPieces(s[1..], sep);
    }
  }

  lemma PieceAdds(pairs: map<string, string>, key: string, value: string)
    requires KEY_VALUE_SEP !in key
    ensures AddEntry(pairs, Piece(key, value)) == pairs[key := value]
  {
    var p := Piece(key, value);
    var i := Index(p, KEY_VALUE_SEP);
    assert p[|key|] == KEY_VALUE_SEP;
    assert forall k :: 0 <= k < |key| ==> p[k] == key[k];
    assert p[..i] == key && p[i + 1..] == value;
  }

  lemma {:induction false} EntriesOfPieces(m: map<string, string>, order: seq<string>)
    requires Clean(m) && forall k :: k in order ==> k in m
    ensures Entries(Pieces(m, order)) == map k | k in order :: m[k]
    decreases |order|
  {
    hide Piece, AddEntry, CleanEntry, Pieces;
    if order == [] {
      assert Pieces(m, order) == [] by { NoPieces(m); }
    } else {
      var n := |order| - 1;
      PiecesSnoc(m, order);
      EntriesOfPieces(m, order[..n]);
      CleanPiece(Entries(Pieces(m, order[..n])), order[n], m[order[n]]);
      assert forall k :: k in order <==> k in order[..n] || k == order[n] by { Last(order); }
    }
  }

  lemma NoPieces(m: map<string, string>)
    ensures Pieces(m, []) == []
  {}

  lemma PiecesSnoc(m: map<string, string>, order: seq<string>)
    requires order != [] && forall k :: k in order ==> k in m
    ensures var n := |order| - 1;
            var ps := Pieces(m, order);
            |ps| == n + 1 && ps[..n] == Pieces(m, order[..n]) && ps[n] == Piece(order[n], m[order[n]])
  {
    hide Piece;
  }

  lemma Last(order: seq<string>)
    requires order != []
    ensures forall k :: k in order <==> k in order[..|order| - 1] || k == order[|order| - 1]
  {
    assert order == order[..|order| - 1] + [order[|order| - 1]];
  }

  lemma CleanPiece(pairs: map<string, string>, key: string, value: string)
    requires CleanEntry(key, value)
    ensures AddEntry(pairs, Piece(key, value)) == pairs[key := value]
  {
    PieceAdds(pairs, key, value);
  }

  lemma {:induction false} EntriesClean(pieces: seq<string>)
    requires forall i :: 0 <= i < |pieces| ==> ENTRY_SEP !in pieces[i]
    ensures Clean(Entries(pieces))
    decreases |pieces|
  {
    if pieces != [] {
      var n := |pieces| - 1;
      EntriesClean(pieces[..n]);
      var p := pieces[n];
      if KEY_VALUE_SEP in p {
        var i := Index(p, KEY_VALUE_SEP);
        assert forall c :: c in p[..i] || c in p[i + 1..] ==> c in p;
        assert CleanEntry(p[..i], p[i + 1..]);
      }
    }
  }

  /** Whatever is parsed is clean. */
  lemma ParsedClean(value: string)
    ensures Clean(Parsed(value))
  {
    SplitPieces(value, ENTRY_SEP);
    EntriesClean(Split(value, ENTRY_SEP));
  }

  /** The round trip, in every order: a map survives being joined and split exactly when no key has
      a separator in it and no value a comma. */
  lemma RoundTripIff(m: map<string, string>, order: seq<string>)
    requires IsOrder(order, m)
    ensures Parsed(Joined(m, order)) == m <==> Clean(m)
  {
    ParsedClean(Joined(m, order));
    if Clean(m) {
      var pieces := Pieces(m, order);
      EntriesOfPieces(m, order);
      assert (map k | k in order :: m[k]) == m;
      if order == [] {
        NothingParsed();
      } else {
        forall i | 0 <= i < |pieces| ensures ENTRY_SEP !in pieces[i] {
          assert order[i] in m;
        }
        SplitJoin(pieces, ENTRY_SEP);
      }
    }
  }

  lemma NothingParsed()
    ensures Parsed("") == map[]
  {
    assert Split("", ENTRY_SEP) == [""];
    assert Entries([""]) == AddEntry(Entries([""][..0]), "");
  }

  lemma {:induction false} EntriesAppend(a: seq<string>, b: seq<string>)
    ensures Entries(a + b) == Entries(a) + Entries(b)
    decreases |b|
  {
    if b == [] {
      assert a + b == a;
    } else {
      var n := |b| - 1;
      assert (a + b)[..|a| + n] == a + b[..n];
      EntriesAppend(a, b[..n]);
    }
  }

  /** Two texts joined by a comma parse to the first map overridden by the second. */
  lemma ParsedAppend(s: string, t: string)
    ensures Parsed(s + [ENTRY_SEP] + t) == Parsed(s) + Parsed(t)
  {
    hide Entries, Split;
    SplitAt(s, t, ENTRY_SEP);
    EntriesAppend(Split(s, ENTRY_SEP), Split(t, ENTRY_SEP));
  }

  lemma ParsedPiece(key: string, value: string)
    requires CleanEntry(key, value)
    ensures Parsed(Piece(key, value)) == map[key := value]
  {
    hide Parsed, Piece;
    var m := map[key := value];
    RoundTripIff(m, [key]);
    assert Pieces(m, [key]) == [Piece(key, value)];
  }

  /** What a comma in a value does: the rest of the value becomes an entry of its own. */
  lemma CommaCuts()
    ensures Joined(map["a" := "1,b=2"], ["a"]) == "a=1,b=2"
    ensures Parsed("a=1,b=2") == map["a" := "1", "b" := "2"]
  {
    hide Parsed;
    var m := map["a" := "1,b=2"];
    assert Piece("a", m["a"]) == "a=1,b=2";
    assert Pieces(m, ["a"]) == [Piece("a", m["a"])];
    assert "a=1" + [ENTRY_SEP] + "b=2" == "a=1,b=2";
    ParsedAppend("a=1", "b=2");
    assert Piece("a", "1") == "a=1" && Piece("b", "2") == "b=2";
    ParsedPiece("a", "1");
    ParsedPiece("b", "2");
    assert map["a" := "1"] + map["b" := "2"] == map["a" := "1", "b" := "2"];
  }

  // ------------------------------------------------------------------ what is parsed, piece by piece

  /** The pieces are what is joined by separators to give the text. */
  lemma {:induction false} JoinSplit(s: string, sep: char)
    ensures Join(Split(s, sep), sep) == s
    decreases |s|
  {
    if s != "" {
      JoinSplit(s[1..], sep);
      var rest := Split(s[1..], sep);
      if s[0] == sep {
        assert ([""] + rest)[1..] == rest;
        assert [sep] + s[1..] == s;
      } else {
        JoinLead(s[0], rest, sep);
        assert [s[0]] + s[1..] == s;
      }
    }
  }

  lemma JoinLead(c: char, parts: seq<string>, sep: char)
    requires parts != []
    ensures Join(Lead(c, parts), sep) == [c] + Join(parts, sep)
  {
    assert Lead(c, parts)[1..] == parts[1..];
    if |parts| > 1 {
      assert [c] + parts[0] + [sep] + Join(parts[1..], sep) == [c] + (parts[0] + [sep] + Join(parts[1..], sep));
    }
  }

  /** Does the piece give `key` a value? */
  predicate Binds(piece: string, key: string) {
    |key| < |piece| && piece[..|key|] == key && piece[|key|] == '='
  }

  /** A piece is `key=value`, the key without `=`, and no later piece gives the key a value. */
  ghost predicate LastBinding(pieces: seq<string>, key: string, value: string) {
    '=' !in key
    && exists i :: 0 <= i < |pieces| && pieces[i] == key + "=" + value
                   && forall j :: i < j < |pieces| ==> !Binds(pieces[j], key)
  }

  lemma BindsPiece(key: string, value: string)
    ensures Binds(key + "=" + value, key)
  {}

  /** A piece gives only one key a value: what is before its first `=`. */
  lemma BindsFirst(piece: string, key: string)
    requires '=' !in key
    ensures Binds(piece, key) <==> '=' in piece && Index(piece, '=') == |key| && piece[..|key|] == key
  {
    var i := Index(piece, '=');
    if Binds(piece, key) {
      assert forall k :: 0 <= k < |key| ==> piece[k] == key[k];
    }
  }

  lemma CutAt(piece: string, i: nat)
    requires i < |piece| && piece[i] == '='
    ensures piece == piece[..i] + "=" + piece[i + 1..]
  {}

  lemma {:induction false} EntriesIff(pieces: seq<string>, k: string, v: string)
    ensures (k in Entries(pieces) && Entries(pieces)[k] == v) <==> LastBinding(pieces, k, v)
    decreases |pieces|
  {
    if pieces != [] {
      var n := |pieces| - 1;
      var p := pieces[n];
      EntriesIff(pieces[..n], k, v);
      if '=' in k {
        NoSuchKey(pieces, k);
      } else {
        BindsFirst(p, k);
        LastBindingSnoc(pieces, k, v);
        if Binds(p, k) {
          CutAt(p, |k|);
          SameValue(k, p[|k| + 1..], v);
        }
      }
    }
  }

  lemma SameValue(key: string, v: string, w: string)
    ensures key + "=" + v == key + "=" + w <==> v == w
  {
    assert (key + "=" + v)[|key| + 1..] == v && (key + "=" + w)[|key| + 1..] == w;
  }

  /** No key of the map has an `=`. */
  lemma {:induction false} NoSuchKey(pieces: seq<string>, k: string)
    requires '=' in k
    ensures k !in Entries(pieces)
    decreases |pieces|
  {
    if pieces != [] {
      NoSuchKey(pieces[..|pieces| - 1], k);
    }
  }

  lemma LastBindingSnoc(pieces: seq<string>, k: string, v: string)
    requires pieces != [] && '=' !in k
    ensures var n := |pieces| - 1;
            LastBinding(pieces, k, v) <==>
              if Binds(pieces[n], k) then pieces[n] == k + "=" + v else LastBinding(pieces[..n], k, v)
  {
    var n := |pieces| - 1;
    BindsPiece(k, v);
    if LastBinding(pieces, k, v) {
      var i :| 0 <= i < |pieces| && pieces[i] == k + "=" + v && forall j :: i < j < |pieces| ==> !Binds(pieces[j], k);
      if i < n {
        assert pieces[..n][i] == pieces[i];
      }
    }
    if !Binds(pieces[n], k) && LastBinding(pieces[..n], k, v) {
      var i :| 0 <= i < n && pieces[..n][i] == k + "=" + v && forall j :: i < j < n ==> !Binds(pieces[..n][j], k);
      assert pieces[i] == k + "=" + v;
      forall j | i < j < |pieces| ensures !Binds(pieces[j], k) {
        if j < n { assert pieces[..n][j] == pieces[j]; }
      }
    }
  }

  lemma {:induction false} PiecesWithin(s: string, sep: char, c: char)
    requires c !in s
    ensures forall i :: 0 <= i < |Split(s, sep)| ==> c !in Split(s, sep)[i]
    decreases |s|
  {
    if s != "" {
      PiecesWithin(s[1..], sep, c);
    }
  }

  /** A text without `=` has no entries, whatever commas it has. */
  lemma NothingWithoutEquals(s: string)
    requires '=' !in s
    ensures Parsed(s) == map[]
  {
    PiecesWithin(s, ENTRY_SEP, '=');
    PassedOver(Split(s, ENTRY_SEP));
  }

  lemma {:induction false} PassedOver(pieces: seq<string>)
    requires forall i :: 0 <= i < |pieces| ==> '=' !in pieces[i]
    ensures Entries(pieces) == map[]
    decreases |pieces|
  {
    if pieces != [] {
      PassedOver(pieces[..|pieces| - 1]);
    }
  }

  /** Pieces without `=` are passed over wherever they stand. */
  lemma EqualsMissing(s: string, t: string)
    requires '=' !in t
    ensures Parsed(s + "," + t) == Parsed(s) && Parsed(t + "," + s) == Parsed(s)
  {
    hide Parsed;
    NothingWithoutEquals(t);
    ParsedAppend(s, t);
    ParsedAppend(t, s);
    assert Parsed(s) + map[] == Parsed(s) && map[] + Parsed(s) == Parsed(s);
  }

  /** An argument whose value is a list loses all but the first of it. */
  lemma ListCut()
    ensures Joined(map["nodes" := "1,2"], ["nodes"]) == "nodes=1,2"
    ensures Parsed("nodes=1,2") == map["nodes" := "1"]
  {
    hide Parsed;
    var m := map["nodes" := "1,2"];
    assert Piece("nodes", m["nodes"]) == "nodes=1,2";
    assert Pieces(m, ["nodes"]) == [Piece("nodes", m["nodes"])];
    assert "nodes=1" + "," + "2" == "nodes=1,2";
    EqualsMissing("nodes=1", "2");
    assert Piece("nodes", "1") == "nodes=1";
    ParsedPiece("nodes", "1");
  }

  /** Two entries, joined. */
  lemma TwoJoined()
    ensures Joined(map["a" := "1", "b" := "2"], ["a", "b"]) == "a=1,b=2"
  {
    var m := map["a" := "1", "b" := "2"];
    assert Piece("a", m["a"]) == "a=1" && Piece("b", m["b"]) == "b=2";
    var ps := Pieces(m, ["a", "b"]);
    assert ps == ["a=1", "b=2"];
    assert ps[1..] == ["b=2"];
    assert Join(ps, ENTRY_SEP) == "a=1" + "," + "b=2";
  }
}
