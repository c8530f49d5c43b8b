/** The flat key-value micro-format: `k0 sep v0 sep k1 sep v1 ...` to and from a map
    (`deserialise_kv` / `serialise_kv` in ef19-core/src/codec/mod.rs). */
module KeyValue {
  import opened MapOrder

  /** itertools' `join`: the items with `sep` between consecutive ones, none trailing. */
  function Join(items: seq<string>, sep: string): string
    decreases |items|
  {
    if |items| == 0 then ""
    else if |items| == 1 then items[0]
    else items[0] + sep + Join(items[1..], sep)
  }

  /** `sep` occurs in `t` starting at index `j`. */
  predicate MatchAt(t: string, sep: string, j: int) {
    0 <= j && j + |sep| <= |t| && t[j..j + |sep|] == sep
  }

  /** Splitting on a non-empty pattern: scan left to right, cut at every leftmost
      non-overlapping occurrence of `sep`. Joining the pieces gives the text back. */
  function SplitOn(s: string, sep: string): (r: seq<string>)
    requires |sep| > 0
    ensures |r| >= 1
    ensures Join(r, sep) == s
    decreases |s|
  {
    if |s| < |sep| then [s]
    else if s[..|sep|] == sep then
      var rest := SplitOn(s[|sep|..], sep);
      assert s == sep + s[|sep|..];
      [""] + rest
    else
      var rest := SplitOn(s[1..], sep);
      var r := [[s[0]] + rest[0]] + rest[1..];
      assert s == [s[0]] + s[1..];
      assert |rest| > 1 ==> rest == [rest[0]] + rest[1..];
      r
  }

  /** Rust's `str::split`. The empty pattern matches at every character boundary, so
      it yields an empty piece, every character on its own, and another empty piece.
      Either way, joining the pieces with the pattern gives the text back. */
  function Split(s: string, sep: string): (r: seq<string>)
    ensures |r| >= 1
    ensures Join(r, sep) == s
  {
    if |sep| == 0 then
      JoinChars(s);
      [""] + Chars(s) + [""]
    else SplitOn(s, sep)
  }

  /** Every character of `s` as a string of its own. */
  function Chars(s: string): (r: seq<string>)
    ensures |r| == |s|
    ensures forall i :: 0 <= i < |s| ==> r[i] == [s[i]]
  {
    seq(|s|, i requires 0 <= i < |s| => [s[i]])
  }

  /** The characters of `s` after an empty piece, joined with nothing between them,
      are `s`, whether or not another empty piece follows. */
  lemma {:induction false} JoinChars(s: string)
    ensures Join([""] + Chars(s), "") == s
    ensures Join([""] + Chars(s) + [""], "") == s
    decreases |s|
  {
    if |s| > 0 {
      var n := |s| - 1;
      JoinChars(s[..n]);
      assert [""] + Chars(s) == [""] + Chars(s[..n]) + [[s[n]]];
      JoinBack([""] + Chars(s[..n]), [s[n]], "");
      assert s == s[..n] + [s[n]];
    }
    JoinBack([""] + Chars(s), "", "");
  }

  /** itertools' `tuples()` on pairs: consecutive tokens two at a time; an odd trailing
      token is dropped. */
  function Pairs(tokens: seq<string>): (r: seq<(string, string)>)
    ensures |r| == |tokens| / 2
    ensures forall i :: 0 <= i < |r| ==> r[i] == (tokens[2 * i], tokens[2 * i + 1])
    decreases |tokens|
  {
    if |tokens| < 2 then []
    else
      var rest := Pairs(tokens[2..]);
      var r := [(tokens[0], tokens[1])] + rest;
      assert forall i :: 1 <= i < |r| ==> r[i] == rest[i - 1];
      r
  }

  /** `HashMap::insert` of every pair, first to last. */
  function InsertAll(pairs: seq<(string, string)>): map<string, string>
    decreases |pairs|
  {
    if |pairs| == 0 then map[]
    else
      var n := |pairs| - 1;
      InsertAll(pairs[..n])[pairs[n].0 := pairs[n].1]
  }

  /** A key is present after the insertions iff some pair carries it. */
  lemma {:induction false} InsertAllKeys(pairs: seq<(string, string)>)
    ensures forall k :: k in InsertAll(pairs) <==> exists i :: 0 <= i < |pairs| && pairs[i].0 == k
    decreases |pairs|
  {
    if |pairs| > 0 {
      var n := |pairs| - 1;
      var front := pairs[..n];
      InsertAllKeys(front);
      assert forall i :: 0 <= i < n ==> front[i] == pairs[i];
    }
  }

  /** A pair no later pair shares its key with survives the insertions: the later pair
      overwrites the earlier one. */
  lemma {:induction false} InsertAllLastWins(pairs: seq<(string, string)>, i: nat)
    requires i < |pairs|
    requires forall j :: i < j < |pairs| ==> pairs[j].0 != pairs[i].0
    ensures pairs[i].0 in InsertAll(pairs) && InsertAll(pairs)[pairs[i].0] == pairs[i].1
    decreases |pairs|
  {
    var n := |pairs| - 1;
    if i < n {
      var front := pairs[..n];
      assert front[i] == pairs[i];
      InsertAllLastWins(front, i);
    }
  }

  /** `deserialise_kv`. */
  function Deserialise(input: string, sep: string): map<string, string> {
    InsertAll(Pairs(Split(input, sep)))
  }

  /** Every value present after the insertions came in a pair with its key. */
  lemma {:induction false} InsertAllValues(pairs: seq<(string, string)>)
    ensures forall k :: k in InsertAll(pairs) ==> exists i :: 0 <= i < |pairs| && pairs[i] == (k, InsertAll(pairs)[k])
    decreases |pairs|
  {
    if |pairs| > 0 {
      var n := |pairs| - 1;
      var front := pairs[..n];
      InsertAllValues(front);
      assert forall i :: 0 <= i < n ==> front[i] == pairs[i];
    }
  }

  /** Some pair of `ps` has key `k`. */
  predicate Carries(ps: seq<(string, string)>, k: string) {
    exists i :: 0 <= i < |ps| && ps[i].0 == k
  }

  /** Some pair of `ps` is `p`. */
  predicate HasPair(ps: seq<(string, string)>, p: (string, string)) {
    exists i :: 0 <= i < |ps| && ps[i] == p
  }

  /** The pair at `i` has a key no later pair repeats. */
  predicate LastOfKey(ps: seq<(string, string)>, i: nat)
    requires i < |ps|
  {
    forall j :: i < j < |ps| ==> ps[j].0 != ps[i].0
  }

  /** What `deserialise_kv` reads, in terms of the pieces of its input: the keys are
      exactly the first pieces of the consecutive pairs, every entry is one of those
      pairs, and a pair whose key comes in no later pair is an entry. */
  lemma DeserialiseEntries(input: string, sep: string)
    ensures forall k :: k in Deserialise(input, sep) <==> Carries(Pairs(Split(input, sep)), k)
    ensures forall k :: k in Deserialise(input, sep) ==>
              HasPair(Pairs(Split(input, sep)), (k, Deserialise(input, sep)[k]))
    ensures forall i :: 0 <= i < |Pairs(Split(input, sep))| && LastOfKey(Pairs(Split(input, sep)), i) ==>
              var p := Pairs(Split(input, sep))[i];
              p.0 in Deserialise(input, sep) && Deserialise(input, sep)[p.0] == p.1
  {
    var ps := Pairs(Split(input, sep));
    var d := Deserialise(input, sep);
    assert d == InsertAll(ps);
    InsertAllEntries(ps, d);
  }

  /** The keys, the values and the surviving pairs of the insertions, together. */
  lemma InsertAllEntries(ps: seq<(string, string)>, d: map<string, string>)
    requires d == InsertAll(ps)
    ensures forall k :: k in d <==> Carries(ps, k)
    ensures forall k :: k in d ==> HasPair(ps, (k, d[k]))
    ensures forall i :: 0 <= i < |ps| && LastOfKey(ps, i) ==> ps[i].0 in d && d[ps[i].0] == ps[i].1
  {
    InsertAllKeys(ps);
    InsertAllValues(ps);
    forall i | 0 <= i < |ps| && LastOfKey(ps, i)
      ensures ps[i].0 in InsertAll(ps) && InsertAll(ps)[ps[i].0] == ps[i].1
    {
      InsertAllLastWins(ps, i);
    }
  }

  /** The flat token list `k0, v0, k1, v1, ...` of `m` visited in `order`. */
  function Tokens(m: map<string, string>, order: seq<string>): (r: seq<string>)
    requires forall i :: 0 <= i < |order| ==> order[i] in m
    ensures |r| == 2 * |order|
    ensures forall i :: 0 <= i < |order| ==> r[2 * i] == order[i] && r[2 * i + 1] == m[order[i]]
    decreases |order|
  {
    if |order| == 0 then []
    else
      var rest := Tokens(m, order[1..]);
      var r := [order[0], m[order[0]]] + rest;
      assert forall i :: 2 <= i < |r| ==> r[i] == rest[i - 2];
      r
  }

  /** The entries `k sep v` of `m` visited in `order`. */
  function Entries(m: map<string, string>, order: seq<string>, sep: string): (r: seq<string>)
    requires forall i :: 0 <= i < |order| ==> order[i] in m
    ensures |r| == |order|
    ensures forall i :: 0 <= i < |order| ==> r[i] == order[i] + sep + m[order[i]]
    decreases |order|
  {
    if |order| == 0 then []
    else [order[0] + sep + m[order[0]]] + Entries(m, order[1..], sep)
  }

  /** `serialise_kv`, with the map's iteration order made explicit as `order`: every
      entry `k sep v`, joined by `sep` — the same text as joining the flat token list. */
  function Serialise(m: map<string, string>, sep: string, order: seq<string>): (r: string)
    requires IsKeyOrder(order, m)
    ensures r == Join(Tokens(m, order), sep)
    ensures |m| == 0 ==> r == ""
  {
    EntriesJoin(m, order, sep);
    assert |m| == 0 ==> |order| == 0 by {
      if |order| > 0 {
        assert order[0] in m;
      }
    }
    Join(Entries(m, order, sep), sep)
  }

  lemma {:induction false} EntriesJoin(m: map<string, string>, order: seq<string>, sep: string)
    requires forall i :: 0 <= i < |order| ==> order[i] in m
    ensures Join(Entries(m, order, sep), sep) == Join(Tokens(m, order), sep)
    decreases |order|
  {
    if |order| > 0 {
      var k := order[0];
      var rest := order[1..];
      EntriesJoin(m, rest, sep);
      var ts := Tokens(m, rest);
      var toks := Tokens(m, order);
      assert toks == [k, m[k]] + ts;
      assert toks[1..] == [m[k]] + ts;
      assert toks[2..] == ts;
      if |rest| == 0 {
        assert Join(toks[1..], sep) == m[k];
      } else {
        assert Entries(m, order, sep) == [k + sep + m[k]] + Entries(m, rest, sep);
        assert Entries(m, order, sep)[1..] == Entries(m, rest, sep);
        assert Join(toks[1..], sep) == m[k] + sep + Join(ts, sep);
      }
    }
  }

  /** A piece free of the separator's first character, followed by the separator, is
      cut off whole. */
  lemma {:induction false} SplitPiece(t: string, sep: string, rest: string)
    requires |sep| > 0 && sep[0] !in t
    ensures SplitOn(t + sep + rest, sep) == [t] + SplitOn(rest, sep)
    decreases |t|
  {
    var s := t + sep + rest;
    if |t| == 0 {
      assert s[..|sep|] == sep;
      assert s[|sep|..] == rest;
    } else {
      assert s[0] == t[0] != sep[0];
      assert s[..|sep|] != sep by {
        assert s[..|sep|][0] == s[0];
      }
      assert s[1..] == t[1..] + sep + rest;
      SplitPiece(t[1..], sep, rest);
      assert [t[0]] + t[1..] == t;
    }
  }

  /** Text free of the separator's first character splits into itself. */
  lemma {:induction false} SplitPlain(t: string, sep: string)
    requires |sep| > 0 && sep[0] !in t
    ensures SplitOn(t, sep) == [t]
    decreases |t|
  {
    if |t| >= |sep| {
      assert t[..|sep|] != sep by {
        assert t[..|sep|][0] == t[0];
      }
      SplitPlain(t[1..], sep);
      assert [t[0]] + t[1..] == t;
    }
  }

  /** Splitting undoes joining when no token holds the separator's first character. */
  lemma {:induction false} SplitJoin(tokens: seq<string>, sep: string)
    requires |sep| > 0 && |tokens| >= 1
    requires forall i :: 0 <= i < |tokens| ==> sep[0] !in tokens[i]
    ensures Split(Join(tokens, sep), sep) == tokens
    decreases |tokens|
  {
    if |tokens| == 1 {
      SplitPlain(tokens[0], sep);
    } else {
      SplitJoin(tokens[1..], sep);
      SplitPiece(tokens[0], sep, Join(tokens[1..], sep));
      assert [tokens[0]] + tokens[1..] == tokens;
    }
  }

  /** No piece of a split contains the separator: it cannot be escaped. */
  lemma {:induction false} SplitPiecesFree(s: string, sep: string)
    requires |sep| > 0
    ensures forall i, j :: 0 <= i < |SplitOn(s, sep)| ==> !MatchAt(SplitOn(s, sep)[i], sep, j)
    decreases |s|
  {
    var r := SplitOn(s, sep);
    if |s| < |sep| {
      forall i, j | 0 <= i < |r| ensures !MatchAt(r[i], sep, j) {
        assert r[i] == s;
      }
    } else if s[..|sep|] == sep {
      var rest := SplitOn(s[|sep|..], sep);
      SplitPiecesFree(s[|sep|..], sep);
      forall i, j | 0 <= i < |r| ensures !MatchAt(r[i], sep, j) {
        if i > 0 {
          assert r[i] == rest[i - 1];
        }
      }
    } else {
      var rest := SplitOn(s[1..], sep);
      SplitPiecesFree(s[1..], sep);
      var p := [s[0]] + rest[0];
      assert r[0] == p;
      // the first piece is a prefix of s: it is the text before the first cut
      assert p == s[..|p|] by {
        if |rest| == 1 {
          assert rest[0] == s[1..];
        } else {
          assert rest == [rest[0]] + rest[1..];
          assert Join(rest, sep) == rest[0] + sep + Join(rest[1..], sep);
          assert s[1..][..|rest[0]|] == rest[0];
        }
      }
      forall i, j | 0 <= i < |r| ensures !MatchAt(r[i], sep, j) {
        if i > 0 {
          assert r[i] == rest[i];
        } else if j > 0 && j + |sep| <= |p| {
          assert p[j..j + |sep|] == rest[0][j - 1..j - 1 + |sep|];
          assert !MatchAt(rest[0], sep, j - 1);
        }
      }
    }
  }

  lemma PairsOfTokens(m: map<string, string>, order: seq<string>)
    requires forall i :: 0 <= i < |order| ==> order[i] in m
    ensures |Pairs(Tokens(m, order))| == |order|
    ensures forall i :: 0 <= i < |order| ==> Pairs(Tokens(m, order))[i] == (order[i], m[order[i]])
  {
  }

  lemma InsertKeyOrderValues(m: map<string, string>, order: seq<string>)
    requires IsKeyOrder(order, m)
    ensures forall k :: k in m ==>
              (k in InsertAll(Pairs(Tokens(m, order))) && InsertAll(Pairs(Tokens(m, order)))[k] == m[k])
  {
    var ps := Pairs(Tokens(m, order));
    PairsOfTokens(m, order);
    forall k | k in m ensures k in InsertAll(ps) && InsertAll(ps)[k] == m[k] {
      var i :| 0 <= i < |order| && order[i] == k;
      InsertAllLastWins(ps, i);
    }
  }

  lemma InsertKeyOrderKeys(m: map<string, string>, order: seq<string>)
    requires IsKeyOrder(order, m)
    ensures forall k :: k in InsertAll(Pairs(Tokens(m, order))) ==> k in m
  {
    var ps := Pairs(Tokens(m, order));
    PairsOfTokens(m, order);
    InsertAllKeys(ps);
    forall k | k in InsertAll(ps) ensures k in m {
      var i :| 0 <= i < |ps| && ps[i].0 == k;
      assert ps[i].0 == order[i];
    }
  }

  /** Inserting the pairs of a key order rebuilds the map it was taken from. */
  lemma InsertKeyOrder(m: map<string, string>, order: seq<string>)
    requires IsKeyOrder(order, m)
    ensures InsertAll(Pairs(Tokens(m, order))) == m
  {
    InsertKeyOrderValues(m, order);
    InsertKeyOrderKeys(m, order);
    SameEntries(InsertAll(Pairs(Tokens(m, order))), m);
  }

  lemma SameEntries(a: map<string, string>, b: map<string, string>)
    requires forall k :: k in b ==> k in a && a[k] == b[k]
    requires forall k :: k in a ==> k in b
    ensures a == b
  {
  }

  lemma TokensFree(m: map<string, string>, order: seq<string>, c: char)
    requires forall i :: 0 <= i < |order| ==> order[i] in m
    requires forall k :: k in m ==> c !in k && c !in m[k]
    ensures forall i :: 0 <= i < |Tokens(m, order)| ==> c !in Tokens(m, order)[i]
  {
    var toks := Tokens(m, order);
    forall i | 0 <= i < |toks| ensures c !in toks[i] {
      if i % 2 == 0 {
        assert toks[2 * (i / 2)] == order[i / 2];
      } else {
        assert toks[2 * (i / 2) + 1] == m[order[i / 2]];
      }
    }
  }

  /** Round trip: with a non-empty separator whose first character occurs in no key or
      value, deserialising the serialised map gives the map back, whatever the order. */
  lemma RoundTrip(m: map<string, string>, sep: string, order: seq<string>)
    requires IsKeyOrder(order, m)
    requires |sep| > 0
    requires forall k :: k in m ==> sep[0] !in k && sep[0] !in m[k]
    ensures Deserialise(Serialise(m, sep, order), sep) == m
  {
    var toks := Tokens(m, order);
    if |order| == 0 {
      assert toks == [];
      assert Split("", sep) == [""];
    } else {
      TokensFree(m, order, sep[0]);
      SplitJoin(toks, sep);
    }
    InsertKeyOrder(m, order);
  }

  /** Joining a token in front of a non-empty list. */
  lemma JoinFront(t: string, rest: seq<string>, sep: string)
    requires |rest| > 0
    ensures Join([t] + rest, sep) == t + sep + Join(rest, sep)
  {
    assert ([t] + rest)[1..] == rest;
  }

  /** Inserting the pairs in order is inserting all but the last, then the last. */
  lemma InsertLast(pairs: seq<(string, string)>, p: (string, string))
    ensures InsertAll(pairs + [p]) == InsertAll(pairs)[p.0 := p.1]
  {
    assert (pairs + [p])[..|pairs|] == pairs;
  }

  /** Text that joins tokens free of the separator's first character reads as the
      pairs of those tokens, inserted in order. */
  lemma DeserialiseJoin(tokens: seq<string>, sep: string)
    requires |sep| > 0 && |tokens| >= 1
    requires forall i :: 0 <= i < |tokens| ==> sep[0] !in tokens[i]
    ensures Deserialise(Join(tokens, sep), sep) == InsertAll(Pairs(tokens))
  {
    SplitJoin(tokens, sep);
  }

  /** Four pairs in a row read as the four entries, later keys overwriting earlier
      ones. */
  lemma DeserialiseFourPairs(k1: string, v1: string, k2: string, v2: string,
                             k3: string, v3: string, k4: string, v4: string, sep: string)
    requires |sep| > 0
    requires sep[0] !in k1 && sep[0] !in v1 && sep[0] !in k2 && sep[0] !in v2
    requires sep[0] !in k3 && sep[0] !in v3 && sep[0] !in k4 && sep[0] !in v4
    ensures Deserialise(k1 + sep + v1 + sep + k2 + sep + v2 + sep + k3 + sep + v3 + sep + k4 + sep + v4, sep)
         == map[k1 := v1][k2 := v2][k3 := v3][k4 := v4]
  {
    JoinEight(k1, v1, k2, v2, k3, v3, k4, v4, sep);
    DeserialiseJoin([k1, v1, k2, v2, k3, v3, k4, v4], sep);
    InsertFourPairs(k1, v1, k2, v2, k3, v3, k4, v4);
  }

  lemma JoinEight(t1: string, t2: string, t3: string, t4: string,
                  t5: string, t6: string, t7: string, t8: string, sep: string)
    ensures Join([t1, t2, t3, t4, t5, t6, t7, t8], sep)
         == t1 + sep + t2 + sep + t3 + sep + t4 + sep + t5 + sep + t6 + sep + t7 + sep + t8
  {
    var p := t1 + sep + t2 + sep + t3 + sep + t4;
    JoinFour(t1, t2, t3, t4, sep);
    assert Join([t1, t2, t3, t4, t5], sep) == p + sep + t5 by {
      JoinBack([t1, t2, t3, t4], t5, sep);
      assert [t1, t2, t3, t4] + [t5] == [t1, t2, t3, t4, t5];
    }
    assert Join([t1, t2, t3, t4, t5, t6], sep) == p + sep + t5 + sep + t6 by {
      JoinBack([t1, t2, t3, t4, t5], t6, sep);
      assert [t1, t2, t3, t4, t5] + [t6] == [t1, t2, t3, t4, t5, t6];
    }
    assert Join([t1, t2, t3, t4, t5, t6, t7], sep) == p + sep + t5 + sep + t6 + sep + t7 by {
      JoinBack([t1, t2, t3, t4, t5, t6], t7, sep);
      assert [t1, t2, t3, t4, t5, t6] + [t7] == [t1, t2, t3, t4, t5, t6, t7];
    }
    JoinBack([t1, t2, t3, t4, t5, t6, t7], t8, sep);
    assert [t1, t2, t3, t4, t5, t6, t7] + [t8] == [t1, t2, t3, t4, t5, t6, t7, t8];
  }

  /** Joining one more token at the back adds a separator and the token. */
  lemma {:induction false} JoinBack(toks: seq<string>, t: string, sep: string)
    requires |toks| > 0
    ensures Join(toks + [t], sep) == Join(toks, sep) + sep + t
    decreases |toks|
  {
    if |toks| == 1 {
      assert (toks + [t])[1..] == [t];
    } else {
      var rest := toks[1..];
      assert (toks + [t])[1..] == rest + [t];
      JoinBack(rest, t, sep);
    }
  }

  lemma InsertFourPairs(k1: string, v1: string, k2: string, v2: string,
                        k3: string, v3: string, k4: string, v4: string)
    ensures InsertAll(Pairs([k1, v1, k2, v2, k3, v3, k4, v4])) == map[k1 := v1][k2 := v2][k3 := v3][k4 := v4]
  {
    var p1, p2, p3, p4 := (k1, v1), (k2, v2), (k3, v3), (k4, v4);
    assert Pairs([k1, v1, k2, v2, k3, v3, k4, v4]) == [p1, p2, p3, p4];
    assert InsertAll([p1]) == map[k1 := v1] by {
      InsertLast([], p1);
      assert [] + [p1] == [p1];
    }
    assert InsertAll([p1, p2]) == map[k1 := v1][k2 := v2] by {
      InsertLast([p1], p2);
      assert [p1] + [p2] == [p1, p2];
    }
    assert InsertAll([p1, p2, p3]) == map[k1 := v1][k2 := v2][k3 := v3] by {
      InsertLast([p1, p2], p3);
      assert [p1, p2] + [p3] == [p1, p2, p3];
    }
    InsertLast([p1, p2, p3], p4);
    assert [p1, p2, p3] + [p4] == [p1, p2, p3, p4];
  }

  /** The codec's own example: pairs are read two tokens at a time. */
  lemma DeserialiseExample()
    ensures Deserialise("1:2:3:4:5:6:8:shit", ":")
            == map["1" := "2", "3" := "4", "5" := "6", "8" := "shit"]
  {
    ExampleText();
    assert ':' !in "shit";
    DeserialiseFourPairs("1", "2", "3", "4", "5", "6", "8", "shit", ":");
  }

  lemma ExampleText()
    ensures "1" + ":" + "2" + ":" + "3" + ":" + "4" + ":" + "5" + ":" + "6" + ":" + "8" + ":" + "shit"
         == "1:2:3:4:5:6:8:shit"
  {
  }

  /** An odd trailing token is dropped silently. */
  lemma DeserialiseOddToken(k: string, v: string, extra: string, sep: string)
    requires |sep| > 0 && sep[0] !in k && sep[0] !in v && sep[0] !in extra
    ensures Deserialise(k + sep + v + sep + extra, sep) == map[k := v]
  {
    JoinThree(k, v, extra, sep);
    DeserialiseJoin([k, v, extra], sep);
    assert Pairs([k, v, extra]) == [(k, v)];
    InsertLast([], (k, v));
    assert [] + [(k, v)] == [(k, v)];
  }

  /** A repeated key keeps the value of its last pair. */
  lemma DeserialiseRepeatedKey(k: string, v1: string, v2: string, sep: string)
    requires |sep| > 0 && sep[0] !in k && sep[0] !in v1 && sep[0] !in v2
    ensures Deserialise(k + sep + v1 + sep + k + sep + v2, sep) == map[k := v2]
  {
    JoinFour(k, v1, k, v2, sep);
    DeserialiseJoin([k, v1, k, v2], sep);
    InsertTwoPairs(k, v1, k, v2);
    assert map[k := v1][k := v2] == map[k := v2];
  }

  lemma JoinThree(t1: string, t2: string, t3: string, sep: string)
    ensures Join([t1, t2, t3], sep) == t1 + sep + t2 + sep + t3
  {
    var toks := [t1, t2, t3];
    JoinFront(t1, toks[1..], sep);
    JoinFront(t2, toks[2..], sep);
    assert [toks[0]] + toks[1..] == toks;
  }

  lemma JoinFour(t1: string, t2: string, t3: string, t4: string, sep: string)
    ensures Join([t1, t2, t3, t4], sep) == t1 + sep + t2 + sep + t3 + sep + t4
  {
    var toks := [t1, t2, t3, t4];
    JoinFront(t1, toks[1..], sep);
    JoinFront(t2, toks[2..], sep);
    JoinFront(t3, toks[3..], sep);
    assert [toks[0]] + toks[1..] == toks;
  }

  lemma InsertTwoPairs(k1: string, v1: string, k2: string, v2: string)
    ensures InsertAll(Pairs([k1, v1, k2, v2])) == map[k1 := v1][k2 := v2]
  {
    var p1, p2 := (k1, v1), (k2, v2);
    assert Pairs([k1, v1, k2, v2]) == [p1, p2];
    assert InsertAll([p1]) == map[k1 := v1] by {
      InsertLast([], p1);
      assert [] + [p1] == [p1];
    }
    InsertLast([p1], p2);
    assert [p1] + [p2] == [p1, p2];
  }

  /** The empty text is the empty map for a non-empty separator; with the empty
      separator it splits into two empty tokens, one empty key with an empty value. */
  lemma DeserialiseEmptyText(sep: string)
    ensures |sep| > 0 ==> Deserialise("", sep) == map[]
    ensures |sep| == 0 ==> Deserialise("", sep) == map["" := ""]
  {
    if |sep| == 0 {
      assert Split("", sep) == ["", ""];
      assert Pairs(["", ""]) == [("", "")];
    } else {
      assert Split("", sep) == [""];
    }
  }
}
