/** `forMovie`: the releases of one movie, highest score first. The score
    lives in the release info, which stores every value as text, so the key
    the source sorts by is a string and Python 2 compares it character by
    character. `ForMovieAsWritten` keeps that ordering; `ForMovie` sorts by
    the number the text spells, which is the ranking the source intends. */
module ReleaseOrder {
  import opened Optional
  import opened Records
  import opened TagMarkers

  /** A sort key as Python 2 compares it: every number is below every string. */
  datatype ScoreKey = Num(n: int) | Text(s: string)

  /** Python 2 `a <= b` on sort keys. */
  predicate KeyBelow(a: ScoreKey, b: ScoreKey) {
    match (a, b)
    case (Num(x), Num(y)) => x <= y
    case (Num(_), Text(_)) => true
    case (Text(_), Num(_)) => false
    case (Text(x), Text(y)) => Below(x, y)
  }

  lemma KeyBelowTotal(a: ScoreKey, b: ScoreKey)
    ensures KeyBelow(a, b) || KeyBelow(b, a)
  {
    if a.Text? && b.Text? { BelowTotal(a.s, b.s); }
  }

  lemma KeyBelowTransitive(a: ScoreKey, b: ScoreKey, c: ScoreKey)
    requires KeyBelow(a, b) && KeyBelow(b, c)
    ensures KeyBelow(a, c)
  {
    if a.Text? && b.Text? && c.Text? { BelowTransitive(a.s, b.s, c.s); }
  }

  /** `sorted(rows, key = key, reverse = True)`: stable, highest key first.
      Each row goes in front of the first later row whose key is not above its own. */
  function SortDescending(rows: seq<Release>, key: Release -> ScoreKey): (r: seq<Release>)
    ensures multiset(r) == multiset(rows)
    ensures |r| == |rows|
    decreases |rows|
  {
    if rows == [] then []
    else
      assert rows == [rows[0]] + rows[1..];
      InsertDescending(rows[0], SortDescending(rows[1..], key), key)
  }

  function InsertDescending(x: Release, sorted: seq<Release>, key: Release -> ScoreKey): (r: seq<Release>)
    ensures multiset(r) == multiset(sorted) + multiset{x}
    ensures |r| == |sorted| + 1
    decreases |sorted|
  {
    if sorted == [] || KeyBelow(key(sorted[0]), key(x)) then [x] + sorted
    else
      assert sorted == [sorted[0]] + sorted[1..];
      [sorted[0]] + InsertDescending(x, sorted[1..], key)
  }

  predicate Descending(rows: seq<Release>, key: Release -> ScoreKey) {
    forall i, j :: 0 <= i < j < |rows| ==> KeyBelow(key(rows[j]), key(rows[i]))
  }

  lemma {:induction false} InsertKeepsDescending(x: Release, sorted: seq<Release>, key: Release -> ScoreKey)
    requires Descending(sorted, key)
    ensures Descending(InsertDescending(x, sorted, key), key)
    decreases |sorted|
  {
    var r := InsertDescending(x, sorted, key);
    if sorted == [] || KeyBelow(key(sorted[0]), key(x)) {
      forall i, j | 0 <= i < j < |r| ensures KeyBelow(key(r[j]), key(r[i])) {
        if i == 0 && j > 0 {
          if j > 1 { KeyBelowTransitive(key(sorted[j - 1]), key(sorted[0]), key(x)); }
        } else {
          assert r[i] == sorted[i - 1] && r[j] == sorted[j - 1];
        }
      }
    } else {
      KeyBelowTotal(key(sorted[0]), key(x));
      InsertKeepsDescending(x, sorted[1..], key);
      var tail := InsertDescending(x, sorted[1..], key);
      assert r == [sorted[0]] + tail;
      forall i, j | 0 <= i < j < |r| ensures KeyBelow(key(r[j]), key(r[i])) {
        if i == 0 {
          assert r[j] in multiset(tail);
          assert r[j] == x || r[j] in sorted[1..];
          if r[j] != x {
            var k :| 0 <= k < |sorted[1..]| && sorted[1..][k] == r[j];
            assert sorted[k + 1] == r[j];
          }
        } else {
          assert r[i] == tail[i - 1] && r[j] == tail[j - 1];
        }
      }
    }
  }

  /** The sort puts rows in descending key order. */
  lemma {:induction false} SortIsDescending(rows: seq<Release>, key: Release -> ScoreKey)
    ensures Descending(SortDescending(rows, key), key)
    decreases |rows|
  {
    if rows != [] {
      SortIsDescending(rows[1..], key);
      InsertKeepsDescending(rows[0], SortDescending(rows[1..], key), key);
    }
  }

  /** The key the source sorts by: the stored score text, or the number 0 when absent. */
  function StoredScore(r: Release): ScoreKey {
    if r.info.InfoMap? && "score" in r.info.entries then Text(r.info.entries["score"]) else Num(0)
  }

  /** `forMovie` as written; None when some release's info is not a dict
      (`.get` raises). */
  function ForMovieAsWritten(rows: seq<Release>): (r: Option<seq<Release>>)
    ensures r.Some? ==> multiset(r.value) == multiset(rows) && Descending(r.value, StoredScore)
    ensures r.None? <==> exists i :: 0 <= i < |rows| && rows[i].info.NotAMapping?
  {
    if exists i :: 0 <= i < |rows| && rows[i].info.NotAMapping? then None
    else SortIsDescending(rows, StoredScore); Some(SortDescending(rows, StoredScore))
  }

  // ------------------------------------------------------------ the numeric ranking

  predicate AllDigits(s: string) {
    |s| > 0 && forall i :: 0 <= i < |s| ==> '0' <= s[i] <= '9'
  }

  /** The value of a decimal numeral, read from the right. */
  function DecimalValue(s: string): (n: nat)
    decreases |s|
  {
    if s == [] then 0 else DecimalValue(s[..|s| - 1]) * 10 + (if '0' <= s[|s| - 1] <= '9' then s[|s| - 1] as int - '0' as int else 0)
  }

  lemma {:induction false} ValueBelowPower(s: string)
    requires AllDigits(s) || s == []
    ensures DecimalValue(s) < Power10(|s|)
    decreases |s|
  {
    if s != [] {
      var front := s[..|s| - 1];
      ValueBelowPower(front);
    }
  }

  function Power10(k: nat): nat {
    if k == 0 then 1 else 10 * Power10(k - 1)
  }

  /** The number a stored score spells (an optional minus, then digits); 0 otherwise. */
  function ScoreNumber(text: string): int {
    if AllDigits(text) then DecimalValue(text)
    else if |text| > 1 && text[0] == '-' && AllDigits(text[1..]) then -(DecimalValue(text[1..]) as int)
    else 0
  }

  /** The key the source means: the stored score as a number, 0 when absent. */
  function NumericScore(r: Release): ScoreKey {
    if r.info.InfoMap? && "score" in r.info.entries then Num(ScoreNumber(r.info.entries["score"])) else Num(0)
  }

  /** `forMovie` ranking by the number each score spells. */
  function ForMovie(rows: seq<Release>): (r: Option<seq<Release>>)
    ensures r.Some? ==> multiset(r.value) == multiset(rows)
    ensures r.Some? ==> forall i, j :: 0 <= i < j < |r.value| ==> NumericScore(r.value[j]).n <= NumericScore(r.value[i]).n
    ensures r.None? <==> exists i :: 0 <= i < |rows| && rows[i].info.NotAMapping?
  {
    if exists i :: 0 <= i < |rows| && rows[i].info.NotAMapping? then None
    else SortIsDescending(rows, NumericScore); Some(SortDescending(rows, NumericScore))
  }

  /** For plain numerals the numeric key agrees with the text key whenever
      both have the same number of digits, so the two sorts differ only
      across numerals of different lengths. */
  lemma {:induction false} SameLengthAgrees(a: string, b: string)
    requires AllDigits(a) && AllDigits(b) && |a| == |b|
    ensures Below(a, b) <==> DecimalValue(a) <= DecimalValue(b)
    decreases |a|
  {
    if |a| > 1 {
      var a', b' := a[..|a| - 1], b[..|b| - 1];
      SameLengthAgrees(a', b');
      ValueBelowPower([a[|a| - 1]]);
      BelowPrefix(a', b', a[|a| - 1], b[|b| - 1]);
      assert a == a' + [a[|a| - 1]] && b == b' + [b[|b| - 1]];
      if a' != b' {
        if DecimalValue(a') < DecimalValue(b') {
          assert DecimalValue(a) <= DecimalValue(a') * 10 + 9 < DecimalValue(b') * 10 <= DecimalValue(b);
        } else {
          if DecimalValue(a') == DecimalValue(b') { DecimalInjective(a', b'); }
          assert DecimalValue(b) <= DecimalValue(b') * 10 + 9 < DecimalValue(a') * 10 <= DecimalValue(a);
        }
      }
    } else {
      assert DecimalValue(a) == DecimalValue(a[..0]) * 10 + (a[0] as int - '0' as int);
      assert DecimalValue(b) == DecimalValue(b[..0]) * 10 + (b[0] as int - '0' as int);
    }
  }

  /** Distinct numerals of one length spell distinct numbers. */
  lemma {:induction false} DecimalInjective(a: string, b: string)
    requires AllDigits(a) && AllDigits(b) && |a| == |b|
    requires DecimalValue(a) == DecimalValue(b)
    ensures a == b
    decreases |a|
  {
    var x, y := a[|a| - 1], b[|b| - 1];
    var a', b' := a[..|a| - 1], b[..|b| - 1];
    var dx, dy := x as int - '0' as int, y as int - '0' as int;
    assert '0' <= x <= '9' && '0' <= y <= '9';
    assert DecimalValue(a') * 10 + dx == DecimalValue(b') * 10 + dy;
    LastDigit(DecimalValue(a'), DecimalValue(b'), dx, dy);
    if |a| > 1 {
      DecimalInjective(a', b');
    }
    assert a == a' + [x] && b == b' + [y];
  }

  /** The last digit and the rest of a numeral are determined by its value. */
  lemma LastDigit(p: int, q: int, dx: int, dy: int)
    requires 0 <= dx <= 9 && 0 <= dy <= 9 && p * 10 + dx == q * 10 + dy
    ensures p == q && dx == dy
  {
  }

  /** Comparing two extended strings of equal length: the prefixes decide
      unless they are equal, then the last characters do. */
  lemma {:induction false} BelowPrefix(a: string, b: string, x: char, y: char)
    requires |a| == |b|
    ensures Below(a + [x], b + [y]) <==> (if a == b then x <= y else Below(a, b))
    decreases |a|
  {
    if a != [] {
      assert (a + [x])[1..] == a[1..] + [x] && (b + [y])[1..] == b[1..] + [y];
      BelowPrefix(a[1..], b[1..], x, y);
      if a[0] == b[0] && a[1..] == b[1..] {
        assert a == b;
      }
    }
  }

  /** The release with a given stored score (and nothing else in its info). */
  function Scored(score: string): Release {
    Release(UrlDigest(score), 1, 1, Statuses.Available, InfoMap(map["score" := score]), {}, 0)
  }

  /** As written, a score of 9 ranks above a score of 10. */
  lemma NineAboveTen()
    ensures ForMovieAsWritten([Scored("10"), Scored("9")]) == Some([Scored("9"), Scored("10")])
  {
    var ten, nine := Scored("10"), Scored("9");
    assert StoredScore(ten) == Text("10") && StoredScore(nine) == Text("9");
    assert !Below("9", "10") by {
      assert "9"[0] == '9' && "10"[0] == '1';
    }
    assert [ten, nine][1..] == [nine];
    assert SortDescending([nine], StoredScore) == [nine] by {
      assert [nine][1..] == [];
    }
    assert InsertDescending(ten, [], StoredScore) == [ten];
    assert InsertDescending(ten, [nine], StoredScore) == [nine, ten] by {
      assert [nine][1..] == [];
    }
    assert SortDescending([ten, nine], StoredScore) == [nine, ten];
    assert !exists i :: 0 <= i < |[ten, nine]| && [ten, nine][i].info.NotAMapping?;
  }

  /** Ranking by number, the score of 10 comes first. */
  lemma TenAboveNine()
    ensures ForMovie([Scored("10"), Scored("9")]) == Some([Scored("10"), Scored("9")])
  {
    var ten, nine := Scored("10"), Scored("9");
    assert DecimalValue("10") == 10 by {
      assert "10"[..1] == "1" && "1"[..0] == [];
    }
    assert DecimalValue("9") == 9 by {
      assert "9"[..0] == [];
    }
    assert AllDigits("10") && AllDigits("9");
    assert NumericScore(ten) == Num(10) && NumericScore(nine) == Num(9);
    assert [ten, nine][1..] == [nine];
    assert SortDescending([nine], NumericScore) == [nine] by {
      assert [nine][1..] == [];
    }
    assert InsertDescending(ten, [nine], NumericScore) == [ten, nine];
    assert SortDescending([ten, nine], NumericScore) == [ten, nine];
    assert !exists i :: 0 <= i < |[ten, nine]| && [ten, nine][i].info.NotAMapping?;
  }
}
