/** The slot map of a `UNT? 0` reply does not depend on the revision numbers
    it reports: `parse_module_query_response` keeps only the model group of
    each match, and the revision group only decides where the next search
    starts. Editing the digits of any one revision therefore leaves the map
    unchanged. */
module InventoryRevisions {
  import opened Chars
  import opened ModuleInventory

  /** A match at index `q` of `s`, stated with indices of `s` itself: the
      optional `;` at `q`, the model run, the comma at `c`, and the revision
      run up to `e`, where the greedy `\d+` stops. */
  predicate HitSpan(s: string, q: nat, h: Hit) {
    var ms := if h.semicolon then 1 else 0;
    var c := q + ms + |h.model|;
    var e := q + HitLength(h);
    && |h.model| > 0 && |h.revision| > 0 && e <= |s|
    && (h.semicolon ==> s[q] == ';')
    && s[q + ms..c] == h.model && (forall x :: q + ms <= x < c ==> IsWordChar(s[x]))
    && s[c] == ','
    && s[c + 1..e] == h.revision && (forall x :: c < x < e ==> IsDigit(s[x]))
    && (e == |s| || !IsDigit(s[e]))
  }

  /** Both ways of stating a match agree. */
  lemma HitAtIsSpan(s: string, q: nat, h: Hit)
    requires q <= |s|
    ensures HitAt(s, q, h) <==> HitSpan(s, q, h)
  {
    if HitAt(s, q, h) {
      SpanOfHitAt(s, q, h);
    }
    if HitSpan(s, q, h) {
      HitAtOfSpan(s, q, h);
    }
  }

  lemma SpanOfHitAt(s: string, q: nat, h: Hit)
    requires HitAt(s, q, h)
    ensures HitSpan(s, q, h)
  {
    var t := s[q..];
    var ms := if h.semicolon then 1 else 0;
    var c := ms + |h.model|;
    var n := HitLength(h);
    assert t[ms..c] == s[q + ms..q + c];
    assert t[c + 1..n] == s[q + c + 1..q + n];
    assert n < |t| ==> t[n] == s[q + n];
    SpanRunsOfHitAt(s, q, h);
  }

  /** The character-class half of `SpanOfHitAt`. */
  lemma SpanRunsOfHitAt(s: string, q: nat, h: Hit)
    requires HitAt(s, q, h)
    ensures var ms := if h.semicolon then 1 else 0;
      forall x :: q + ms <= x < q + ms + |h.model| ==> IsWordChar(s[x])
    ensures var c := (if h.semicolon then 1 else 0) + |h.model|;
      forall x :: q + c < x < q + HitLength(h) ==> IsDigit(s[x])
  {
    var t := s[q..];
    var ms := if h.semicolon then 1 else 0;
    var c := ms + |h.model|;
    var n := HitLength(h);
    forall x | q + ms <= x < q + c
      ensures IsWordChar(s[x])
    {
      assert s[x] == t[x - q] == h.model[x - q - ms];
    }
    forall x | q + c < x < q + n
      ensures IsDigit(s[x])
    {
      assert s[x] == t[x - q] == h.revision[x - q - c - 1];
    }
  }

  lemma HitAtOfSpan(s: string, q: nat, h: Hit)
    requires q <= |s| && HitSpan(s, q, h)
    ensures HitAt(s, q, h)
  {
    var t := s[q..];
    var ms := if h.semicolon then 1 else 0;
    var c := ms + |h.model|;
    var n := HitLength(h);
    assert t[ms..c] == s[q + ms..q + c];
    assert t[c + 1..n] == s[q + c + 1..q + n];
    assert n < |t| ==> t[n] == s[q + n];
    assert AllIn(h.model, Word) by {
      forall x | 0 <= x < |h.model|
        ensures InClass(h.model[x], Word)
      {
        assert h.model[x] == s[q + ms + x];
      }
    }
    assert IsDigits(h.revision) by {
      forall x | 0 <= x < |h.revision|
        ensures InClass(h.revision[x], Digit)
      {
        assert h.revision[x] == s[q + c + 1 + x];
      }
    }
  }

  /** A match that ends before index `i` sees nothing of `s` from `i` on, so
      it is a match in any text that agrees with `s` before `i`. */
  lemma HitBeforeEdit(a: string, b: string, i: nat, q: nat, h: Hit)
    requires i <= |a| && i <= |b| && a[..i] == b[..i]
    requires HitSpan(a, q, h) && q + HitLength(h) < i
    ensures HitSpan(b, q, h)
  {
    var ms := if h.semicolon then 1 else 0;
    var c := q + ms + |h.model|;
    var e := q + HitLength(h);
    forall x | 0 <= x < i
      ensures a[x] == b[x]
    {
      assert a[x] == a[..i][x];
    }
    assert b[q + ms..c] == a[q + ms..c];
    assert b[c + 1..e] == a[c + 1..e];
  }

  /** A match whose comma sits right before index `i` takes as its revision
      the whole digit run starting at `i`; with another digit run there, the
      same lead makes a match with that run as its revision. */
  lemma HitWithNewRevision(b: string, i: nat, jb: nat, q: nat, h: Hit, a: string)
    requires 0 < i < jb <= |b| && i <= |a| && a[..i] == b[..i]
    requires forall x :: i <= x < jb ==> IsDigit(b[x])
    requires jb == |b| || !IsDigit(b[jb])
    requires HitSpan(a, q, h)
    requires q + (if h.semicolon then 1 else 0) + |h.model| + 1 == i
    ensures HitSpan(b, q, h.(revision := b[i..jb]))
  {
    var ms := if h.semicolon then 1 else 0;
    var c := q + ms + |h.model|;
    forall x | 0 <= x < i
      ensures a[x] == b[x]
    {
      assert a[x] == a[..i][x];
    }
    assert b[q + ms..c] == a[q + ms..c];
  }

  /** How a match before index `i` fares when the digit run `a[i..ja]`, which
      follows a comma, is replaced by another digit run: either the match
      ends before `i` and survives unchanged, or its revision is exactly that
      run and the same lead now matches with the new run. */
  lemma HitTransfer(a: string, b: string, i: nat, ja: nat, jb: nat, q: nat, h: Hit)
    requires 0 < i < ja <= |a| && i < jb <= |b| && a[..i] == b[..i]
    requires a[i - 1] == ','
    requires forall x :: i <= x < ja ==> IsDigit(a[x])
    requires ja == |a| || !IsDigit(a[ja])
    requires forall x :: i <= x < jb ==> IsDigit(b[x])
    requires jb == |b| || !IsDigit(b[jb])
    requires q < i && HitSpan(a, q, h)
    ensures || (q + HitLength(h) < i && HitSpan(b, q, h))
            || (q + HitLength(h) == ja && h.revision == a[i..ja]
                && HitSpan(b, q, h.(revision := b[i..jb])))
  {
    var ms := if h.semicolon then 1 else 0;
    var c := q + ms + |h.model|;
    var e := q + HitLength(h);
    // The comma of the match lies before `i`: `a[i - 1]` is a comma, so the
    // model run cannot reach over it.
    assert q + ms <= i - 1;
    assert !IsWordChar(a[i - 1]);
    assert c <= i - 1;
    if c < i - 1 {
      assert !IsDigit(a[i - 1]);
      assert e < i;
      HitBeforeEdit(a, b, i, q, h);
    } else {
      // Both `e` and `ja` end the maximal digit run starting at `i`.
      RunLengthUnique(a, i, Digit, ja - i);
      RunLengthUnique(a, i, Digit, e - i);
      HitWithNewRevision(b, i, jb, q, h, a);
    }
  }

  /** `r` is `s` with the digits `s[i..j]` replaced by `d`: the same text
      before `i`, then `d`, then the old text from `j` on. */
  predicate Edited(s: string, i: nat, j: nat, d: string, r: string) {
    && i <= j <= |s| && i + |d| <= |r|
    && r[..i] == s[..i] && r[i..i + |d|] == d && r[i + |d|..] == s[j..]
  }

  /** `s` with the digits `s[i..j]` replaced by `d`. */
  function ReplaceRun(s: string, i: nat, j: nat, d: string): (r: string)
    requires i <= j <= |s|
    ensures Edited(s, i, j, d, r)
  {
    s[..i] + d + s[j..]
  }

  /** What the edit leaves for the scanner: a maximal digit run from `i`. */
  lemma EditedRun(s: string, i: nat, j: nat, d: string, r: string)
    requires Edited(s, i, j, d, r) && IsDigits(d)
    requires j == |s| || !IsDigit(s[j])
    ensures forall x :: i <= x < i + |d| ==> IsDigit(r[x])
    ensures i + |d| == |r| || !IsDigit(r[i + |d|])
  {
    forall x | i <= x < i + |d|
      ensures IsDigit(r[x])
    {
      assert r[x] == r[i..i + |d|][x - i];
      assert InClass(d[x - i], Digit);
    }
    if i + |d| < |r| {
      assert r[i + |d|] == r[i + |d|..][0];
    }
  }

  /** `HitTransfer` for matches stated as `HitAt`. */
  lemma HitAtTransfer(a: string, b: string, i: nat, ja: nat, jb: nat, q: nat, h: Hit)
    requires 0 < i < ja <= |a| && i < jb <= |b| && a[..i] == b[..i]
    requires a[i - 1] == ','
    requires forall x :: i <= x < ja ==> IsDigit(a[x])
    requires ja == |a| || !IsDigit(a[ja])
    requires forall x :: i <= x < jb ==> IsDigit(b[x])
    requires jb == |b| || !IsDigit(b[jb])
    requires q < i && HitAt(a, q, h)
    ensures || (q + HitLength(h) < i && HitAt(b, q, h))
            || (q + HitLength(h) == ja && h.revision == a[i..ja]
                && HitAt(b, q, h.(revision := b[i..jb])))
  {
    HitAtIsSpan(a, q, h);
    HitAtIsSpan(b, q, h);
    HitAtIsSpan(b, q, h.(revision := b[i..jb]));
    HitTransfer(a, b, i, ja, jb, q, h);
  }

  /** The facts about the `k`-th match that the edit relies on: it starts at
      or after `p`, its comma sits right before `i`, and its revision is the
      maximal digit run `s[i..j]`. */
  lemma RevisionOfMatch(s: string, p: nat, k: nat, i: nat, j: nat)
    requires p <= |s| && k < |FindAll(s, p)|
    requires j == End(FindAll(s, p)[k]) && i + |FindAll(s, p)[k].hit.revision| == j
    ensures p <= FindAll(s, p)[k].start < i < j <= |s|
    ensures s[i - 1] == ','
    ensures forall x :: i <= x < j ==> IsDigit(s[x])
    ensures j == |s| || !IsDigit(s[j])
  {
    var f := FindAll(s, p)[k];
    FindAllEntry(s, p, k);
    HitAtIsSpan(s, f.start, f.hit);
    RevisionOfSpan(s, f.start, f.hit, i, j);
  }

  /** Every match the scan from `p` reports lies at or after `p` and is a
      match of the pattern there. */
  lemma {:induction false} FindAllEntry(s: string, p: nat, k: nat)
    requires p <= |s| && k < |FindAll(s, p)|
    ensures p <= FindAll(s, p)[k].start
    ensures HitAt(s, FindAll(s, p)[k].start, FindAll(s, p)[k].hit)
    decreases |s| - p
  {
    if MatchPrefix(s[p..]).None? {
      FindAllMiss(s, p);
      FindAllEntry(s, p + 1, k);
    } else {
      var h := FindAllHit(s, p);
      if k > 0 {
        FindAllEntry(s, p + HitLength(h), k - 1);
      }
    }
  }

  /** The revision of a match is the maximal digit run right after its
      comma. */
  lemma RevisionOfSpan(s: string, q: nat, h: Hit, i: nat, j: nat)
    requires HitSpan(s, q, h)
    requires j == q + HitLength(h) && i + |h.revision| == j
    ensures q < i < j <= |s|
    ensures s[i - 1] == ','
    ensures forall x :: i <= x < j ==> IsDigit(s[x])
    ensures j == |s| || !IsDigit(s[j])
  {
  }

  /** The scan from `p` over the edited reply `r` finds the same matches as
      the scan over `s`, except that the `k`-th one, whose revision was
      `s[i..j]`, carries the new revision `d`. */
  lemma {:induction false} FindAllRevise(s: string, p: nat, k: nat, i: nat, j: nat, d: string, r: string)
    requires p <= |s| && k < |FindAll(s, p)| && IsDigits(d)
    requires j == End(FindAll(s, p)[k]) && i + |FindAll(s, p)[k].hit.revision| == j
    requires Edited(s, i, j, d, r)
    ensures p <= |r|
    ensures Hits(FindAll(r, p)) == Hits(FindAll(s, p))[k := FindAll(s, p)[k].hit.(revision := d)]
    decreases |s| - p, 1
  {
    RevisionOfMatch(s, p, k, i, j);
    EditedRun(s, i, j, d, r);
    if MatchPrefix(s[p..]).None? {
      ReviseAfterMiss(s, p, k, i, j, d, r);
    } else if k == 0 {
      ReviseHere(s, p, i, j, d, r);
    } else {
      ReviseAfterHit(s, p, k, i, j, d, r);
    }
  }

  /** No match at `p` before the edit means none after it. */
  lemma MissSurvivesEdit(s: string, p: nat, i: nat, j: nat, d: string, r: string)
    requires Edited(s, i, j, d, r) && IsDigits(d) && p < i < j
    requires s[i - 1] == ','
    requires forall x :: i <= x < j ==> IsDigit(s[x])
    requires j == |s| || !IsDigit(s[j])
    requires forall x :: i <= x < i + |d| ==> IsDigit(r[x])
    requires i + |d| == |r| || !IsDigit(r[i + |d|])
    requires MatchPrefix(s[p..]).None?
    ensures MatchPrefix(r[p..]).None?
  {
    MatchPrefixCorrect(s[p..]);
    MatchPrefixCorrect(r[p..]);
    if MatchPrefix(r[p..]).Some? {
      HitAtTransfer(r, s, i, i + |d|, j, p, MatchPrefix(r[p..]).value);
      assert false;
    }
  }

  lemma {:induction false} ReviseAfterMiss(s: string, p: nat, k: nat, i: nat, j: nat, d: string, r: string)
    requires p <= |s| && k < |FindAll(s, p)| && IsDigits(d)
    requires j == End(FindAll(s, p)[k]) && i + |FindAll(s, p)[k].hit.revision| == j
    requires Edited(s, i, j, d, r) && p < i < j
    requires s[i - 1] == ','
    requires forall x :: i <= x < j ==> IsDigit(s[x])
    requires j == |s| || !IsDigit(s[j])
    requires forall x :: i <= x < i + |d| ==> IsDigit(r[x])
    requires i + |d| == |r| || !IsDigit(r[i + |d|])
    requires MatchPrefix(s[p..]).None?
    ensures Hits(FindAll(r, p)) == Hits(FindAll(s, p))[k := FindAll(s, p)[k].hit.(revision := d)]
    decreases |s| - p, 0
  {
    MissSurvivesEdit(s, p, i, j, d, r);
    FindAllMiss(s, p);
    FindAllMiss(r, p);
    FindAllRevise(s, p + 1, k, i, j, d, r);
  }

  /** The match at `p` is the one whose revision is edited. */
  lemma ReviseHere(s: string, p: nat, i: nat, j: nat, d: string, r: string)
    requires p <= |s| && 0 < |FindAll(s, p)| && IsDigits(d)
    requires j == End(FindAll(s, p)[0]) && i + |FindAll(s, p)[0].hit.revision| == j
    requires Edited(s, i, j, d, r) && p < i < j
    requires s[i - 1] == ','
    requires forall x :: i <= x < j ==> IsDigit(s[x])
    requires j == |s| || !IsDigit(s[j])
    requires forall x :: i <= x < i + |d| ==> IsDigit(r[x])
    requires i + |d| == |r| || !IsDigit(r[i + |d|])
    requires MatchPrefix(s[p..]).Some?
    ensures Hits(FindAll(r, p)) == Hits(FindAll(s, p))[0 := FindAll(s, p)[0].hit.(revision := d)]
  {
    assert i + |d| <= |r| && s[j..] == r[i + |d|..];
    var h := FirstMatchAt(s, p, j);
    var h' := h.(revision := d);
    EditedHit(s, r, p, i, j, d, h);
    MatchHere(r, p, h', i + |d|);
    ReviseFirst(s, r, p, h, h', j, i + |d|);
  }

  /** A match whose revision is the edited run becomes, in the edited
      string, the same match with the new revision. */
  lemma EditedHit(s: string, r: string, p: nat, i: nat, j: nat, d: string, h: Hit)
    requires Edited(s, i, j, d, r) && p < i < j && |d| > 0
    requires s[i - 1] == ','
    requires forall x :: i <= x < j ==> IsDigit(s[x])
    requires j == |s| || !IsDigit(s[j])
    requires forall x :: i <= x < i + |d| ==> IsDigit(r[x])
    requires i + |d| == |r| || !IsDigit(r[i + |d|])
    requires HitAt(s, p, h) && p + HitLength(h) == j
    ensures HitAt(r, p, h.(revision := d)) && p + HitLength(h.(revision := d)) == i + |d|
  {
    HitAtTransfer(s, r, i, j, i + |d|, p, h);
    assert r[i..i + |d|] == d;
  }

  /** The first match of a scan that finds one at its start. */
  lemma FirstMatchAt(s: string, p: nat, j: nat) returns (h: Hit)
    requires p <= |s| && 0 < |FindAll(s, p)| && j == End(FindAll(s, p)[0])
    requires MatchPrefix(s[p..]).Some?
    ensures h == FindAll(s, p)[0].hit && HitAt(s, p, h) && p + HitLength(h) == j
    ensures FindAll(s, p) == [Found(p, h)] + FindAll(s, j)
  {
    h := FindAllHit(s, p);
    assert FindAll(s, p)[0] == Found(p, h);
  }

  /** A match at `p` is where the scan from `p` starts. */
  lemma MatchHere(r: string, p: nat, h: Hit, e: nat)
    requires HitAt(r, p, h) && p + HitLength(h) == e <= |r|
    ensures FindAll(r, p) == [Found(p, h)] + FindAll(r, e)
  {
    MatchPrefixExact(r[p..], h);
    var h2 := FindAllHit(r, p);
  }

  /** The first matches differ in their hit only, and the scans continue
      on equal text. */
  lemma ReviseFirst(s: string, r: string, p: nat, h: Hit, h': Hit, j: nat, j': nat)
    requires p <= j <= |s| && p <= j' <= |r| && s[j..] == r[j'..]
    requires FindAll(s, p) == [Found(p, h)] + FindAll(s, j)
    requires FindAll(r, p) == [Found(p, h')] + FindAll(r, j')
    ensures Hits(FindAll(r, p)) == Hits(FindAll(s, p))[0 := h']
  {
    FindAllLocal(s, j, r, j');
    ConsWithNewHit(Found(p, h), Found(p, h'), FindAll(s, j), FindAll(r, j'));
  }

  /** Two scans that differ only in their first match's hit. */
  lemma ConsWithNewHit(f: Found, f': Found, tail: seq<Found>, tail': seq<Found>)
    requires Hits(tail) == Hits(tail')
    ensures Hits([f'] + tail') == Hits([f] + tail)[0 := f'.hit]
  {
    HitsCons(f, tail);
    HitsCons(f', tail');
  }

  /** The match at `p` ends before the edited revision and is kept. */
  lemma {:induction false} ReviseAfterHit(s: string, p: nat, k: nat, i: nat, j: nat, d: string, r: string)
    requires p <= |s| && 0 < k < |FindAll(s, p)| && IsDigits(d)
    requires j == End(FindAll(s, p)[k]) && i + |FindAll(s, p)[k].hit.revision| == j
    requires Edited(s, i, j, d, r) && p < i < j
    requires MatchPrefix(s[p..]).Some?
    ensures Hits(FindAll(r, p)) == Hits(FindAll(s, p))[k := FindAll(s, p)[k].hit.(revision := d)]
    decreases |s| - p, 0
  {
    assert i <= |r| && s[..i] == r[..i];
    var h := FirstMatchKept(s, p, k, i, j, r);
    var n := HitLength(h);
    FindAllRevise(s, p + n, k - 1, i, j, d, r);
    ConsKeepsHit(FindAll(s, p), FindAll(r, p), Found(p, h), FindAll(s, p + n), FindAll(r, p + n), k - 1, d);
  }

  /** A match that ends before the edited revision is found in both
      strings. */
  lemma FirstMatchKept(s: string, p: nat, k: nat, i: nat, j: nat, r: string) returns (h: Hit)
    requires p <= |s| && 0 < k < |FindAll(s, p)|
    requires j == End(FindAll(s, p)[k]) && i + |FindAll(s, p)[k].hit.revision| == j
    requires i <= |s| && i <= |r| && s[..i] == r[..i]
    requires MatchPrefix(s[p..]).Some?
    ensures p + HitLength(h) <= |s| && p + HitLength(h) <= |r|
    ensures FindAll(s, p) == [Found(p, h)] + FindAll(s, p + HitLength(h))
    ensures FindAll(r, p) == [Found(p, h)] + FindAll(r, p + HitLength(h))
    ensures k - 1 < |FindAll(s, p + HitLength(h))|
    ensures FindAll(s, p + HitLength(h))[k - 1] == FindAll(s, p)[k]
    ensures j == End(FindAll(s, p + HitLength(h))[k - 1])
    ensures i + |FindAll(s, p + HitLength(h))[k - 1].hit.revision| == j
  {
    h := FindAllHit(s, p);
    var n := HitLength(h);
    var rest := FindAll(s, p + n);
    assert rest[k - 1] == FindAll(s, p)[k];
    RevisionOfMatch(s, p + n, k - 1, i, j);
    HitAtIsSpan(s, p, h);
    HitBeforeEdit(s, r, i, p, h);
    HitAtIsSpan(r, p, h);
    MatchHere(r, p, h, p + HitLength(h));
  }

  /** Prefixing the same match to two scans that differ at one index. */
  lemma ConsKeepsHit(fs: seq<Found>, fr: seq<Found>, f: Found, tail: seq<Found>, tail': seq<Found>, m: nat, d: string)
    requires fs == [f] + tail && fr == [f] + tail' && m < |tail|
    requires Hits(tail') == Hits(tail)[m := tail[m].hit.(revision := d)]
    ensures Hits(fr) == Hits(fs)[m + 1 := fs[m + 1].hit.(revision := d)]
  {
    var v := tail[m].hit.(revision := d);
    assert fs[m + 1] == tail[m];
    HitsCons(f, tail);
    HitsCons(f, tail');
    assert ([f.hit] + Hits(tail))[m + 1 := v] == [f.hit] + Hits(tail)[m := v];
  }

  /** `s[i..j]` is the revision of one of the matches of the reply. */
  predicate IsRevisionRun(s: string, i: nat, j: nat) {
    var fs := FindAll(s, 0);
    && i <= j <= |s|
    && exists k :: 0 <= k < |fs| && End(fs[k]) == j && i + |fs[k].hit.revision| == j
  }

  /** Revision independence: replacing the revision digits of any match by
      any other non-empty digit string leaves the slot map unchanged. */
  lemma RevisionDigitsIrrelevant(s: string, i: nat, j: nat, d: string)
    requires IsRevisionRun(s, i, j) && IsDigits(d)
    ensures ParseModuleQueryResponse(ReplaceRun(s, i, j, d)) == ParseModuleQueryResponse(s)
  {
    var fs := FindAll(s, 0);
    var k :| 0 <= k < |fs| && End(fs[k]) == j && i + |fs[k].hit.revision| == j;
    var r := ReplaceRun(s, i, j, d);
    FindAllRevise(s, 0, k, i, j, d, r);
    var hs := Hits(fs);
    var hs' := Hits(FindAll(r, 0));
    assert ModelsOf(hs') == ModelsOf(hs) by {
      forall x | 0 <= x < |hs|
        ensures hs'[x].model == hs[x].model
      {
      }
    }
  }
}
