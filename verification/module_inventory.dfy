/** Model of `parse_module_query_response`: the reply to the `UNT? 0` query is
    scanned for the pattern `;?(\w+),(\d+)` the way Python's `re.findall`
    scans (leftmost match first, the next search starting where the previous
    match ended), the matches are numbered from slot 1, and every slot whose
    model token is "0" (an empty slot) is dropped. */
module ModuleInventory {
  import opened Chars
  import opened Wrappers

  /** One match of `;?(\w+),(\d+)`: whether the optional `;` was consumed,
      the model group and the revision group. */
  datatype Hit = Hit(semicolon: bool, model: string, revision: string)

  /** A match together with the index of the reply at which it starts. */
  datatype Found = Found(start: nat, hit: Hit)

  /** The part of a match in front of the revision digits. */
  function Lead(h: Hit): string {
    (if h.semicolon then ";" else "") + h.model + ","
  }

  /** The text a match consumes. */
  function HitText(h: Hit): (text: string)
    ensures |text| == HitLength(h)
  {
    Lead(h) + h.revision
  }

  /** How many characters a match consumes. */
  function HitLength(h: Hit): nat {
    (if h.semicolon then 1 else 0) + |h.model| + 1 + |h.revision|
  }

  /** The groups have the shapes the pattern demands: a non-empty run of
      word characters and a non-empty run of digits. */
  predicate WellFormedHit(h: Hit) {
    |h.model| > 0 && AllIn(h.model, Word) && IsDigits(h.revision)
  }

  /** `h` is the match the pattern makes at the very start of `t`: the
      optional `;`, the model group, the comma and the revision group lie at
      the start of `t` in that order, and the greedy `\d+` stops only at a
      non-digit or at the end of `t`. (A `;` at the start is always consumed:
      without it the model would start with `;`, not a word character.) */
  predicate IsHit(t: string, h: Hit) {
    var ms := if h.semicolon then 1 else 0;
    var c := ms + |h.model|;
    var n := HitLength(h);
    && WellFormedHit(h)
    && n <= |t|
    && (h.semicolon ==> t[0] == ';')
    && t[ms..c] == h.model
    && t[c] == ','
    && t[c + 1..n] == h.revision
    && (n == |t| || !IsDigit(t[n]))
  }

  /** The match of the pattern at the start of `t`, if there is one. A `;`
      in front is consumed (the greedy `;?`); the scanner then reads the
      model run and the revision run. */
  function MatchPrefix(t: string): (r: Option<Hit>)
    ensures r.Some? ==> 3 <= HitLength(r.value) <= |t|
  {
    if |t| > 0 && t[0] == ';' then MatchModel(t, 1, 1) else MatchModel(t, 0, 0)
  }

  /** Reads the model run: `t[ms..i]` are word characters read so far. The
      run must be non-empty and be followed by a comma. */
  function MatchModel(t: string, ms: nat, i: nat): (r: Option<Hit>)
    requires ms <= i <= |t| && ms <= 1
    ensures r.Some? ==> 3 <= HitLength(r.value) <= |t|
    decreases |t| - i
  {
    if i < |t| && IsWordChar(t[i]) then MatchModel(t, ms, i + 1)
    else if i == ms || i == |t| || t[i] != ',' then None
    else MatchRevision(t, ms, i, i + 1)
  }

  /** Reads the revision run after the comma at `c`: `t[c + 1..j]` are digits
      read so far. The run must be non-empty; the match ends where it ends. */
  function MatchRevision(t: string, ms: nat, c: nat, j: nat): (r: Option<Hit>)
    requires ms < c < j <= |t| && ms <= 1
    ensures r.Some? ==> 3 <= HitLength(r.value) <= |t|
    decreases |t| - j
  {
    if j < |t| && IsDigit(t[j]) then MatchRevision(t, ms, c, j + 1)
    else if j == c + 1 then None
    else Some(Hit(ms == 1, t[ms..c], t[c + 1..j]))
  }

  /** The revision reader stops at the end of the maximal digit run after
      the comma. */
  lemma {:induction false} MatchRevisionReadsRun(t: string, ms: nat, c: nat, j: nat)
    requires ms < c < j <= |t| && ms <= 1
    requires forall k :: c + 1 <= k < j ==> IsDigit(t[k])
    ensures var e := c + 1 + RunLength(t, c + 1, Digit);
      MatchRevision(t, ms, c, j) == if e == c + 1 then None else Some(Hit(ms == 1, t[ms..c], t[c + 1..e]))
    decreases |t| - j
  {
    if j < |t| && IsDigit(t[j]) {
      MatchRevisionReadsRun(t, ms, c, j + 1);
    } else {
      RunLengthUnique(t, c + 1, Digit, j - (c + 1));
    }
  }

  /** The model reader stops at the end of the maximal word run and goes on
      to the revision only when a comma follows a non-empty run. */
  lemma {:induction false} MatchModelReadsRun(t: string, ms: nat, i: nat)
    requires ms <= i <= |t| && ms <= 1
    requires forall k :: ms <= k < i ==> IsWordChar(t[k])
    ensures var c := ms + RunLength(t, ms, Word);
      MatchModel(t, ms, i) == if c == ms || c == |t| || t[c] != ',' then None else MatchRevision(t, ms, c, c + 1)
    decreases |t| - i
  {
    if i < |t| && IsWordChar(t[i]) {
      MatchModelReadsRun(t, ms, i + 1);
    } else {
      RunLengthUnique(t, ms, Word, i - ms);
    }
  }

  /** `MatchPrefix` finds the match at the start of `t` when there is one, and
      reports none otherwise. */
  lemma MatchPrefixCorrect(t: string)
    ensures MatchPrefix(t).Some? ==> IsHit(t, MatchPrefix(t).value)
    ensures MatchPrefix(t).None? ==> forall h :: !IsHit(t, h)
  {
    var ms := if |t| > 0 && t[0] == ';' then 1 else 0;
    var w := RunLength(t, ms, Word);
    var c := ms + w;
    MatchModelReadsRun(t, ms, ms);
    assert MatchPrefix(t) == MatchModel(t, ms, ms);
    if w == 0 || c == |t| || t[c] != ',' {
      NoHitHere(t, ms, w);
    } else {
      MatchRevisionReadsRun(t, ms, c, c + 1);
      var e := c + 1 + RunLength(t, c + 1, Digit);
      if e == c + 1 {
        NoHitHere(t, ms, w);
      } else {
        HitOfRuns(t, ms, c, e);
        assert MatchPrefix(t) == Some(Hit(ms == 1, t[ms..c], t[c + 1..e]));
      }
    }
  }

  /** When the word run from the start (after a consumed `;`) is followed by
      a comma and a non-empty digit run, the two runs form a match. */
  lemma HitOfRuns(t: string, ms: nat, c: nat, e: nat)
    requires ms == (if |t| > 0 && t[0] == ';' then 1 else 0)
    requires c == ms + RunLength(t, ms, Word) && ms < c < |t| && t[c] == ','
    requires e == c + 1 + RunLength(t, c + 1, Digit) && c + 1 < e
    ensures IsHit(t, Hit(ms == 1, t[ms..c], t[c + 1..e]))
  {
    RunSliceAllIn(t, ms, Word);
    RunSliceAllIn(t, c + 1, Digit);
    RunLengthIsMaximalRun(t, c + 1, Digit);
    var h := Hit(ms == 1, t[ms..c], t[c + 1..e]);
    assert |h.model| == c - ms && |h.revision| == e - c - 1;
    assert HitLength(h) == e;
    assert WellFormedHit(h);
  }

  /** Whatever matches at the start of `t` has the model and revision that
      the greedy runs from the start of `t` pick out. */
  lemma HitDetermined(t: string, h: Hit)
    requires IsHit(t, h)
    ensures h.semicolon <==> t[0] == ';'
    ensures var ms := if h.semicolon then 1 else 0;
      && RunLength(t, ms, Word) == |h.model|
      && RunLength(t, ms + |h.model| + 1, Digit) == |h.revision|
  {
    var ms := if h.semicolon then 1 else 0;
    if !h.semicolon {
      assert t[0] == h.model[0];
      assert InClass(h.model[0], Word);
    }
    WordRunOfHit(t, h, ms);
    DigitRunOfHit(t, h, ms);
  }

  lemma WordRunOfHit(t: string, h: Hit, ms: nat)
    requires WellFormedHit(h)
    requires ms + |h.model| < |t|
    requires h.model == t[ms..ms + |h.model|]
    requires t[ms + |h.model|] == ','
    ensures RunLength(t, ms, Word) == |h.model|
  {
    forall i | ms <= i < ms + |h.model|
      ensures InClass(t[i], Word)
    {
      assert t[i] == h.model[i - ms];
    }
    RunLengthUnique(t, ms, Word, |h.model|);
  }

  lemma DigitRunOfHit(t: string, h: Hit, ms: nat)
    requires WellFormedHit(h)
    requires ms + |h.model| + 1 + |h.revision| <= |t|
    requires h.revision == t[ms + |h.model| + 1..ms + |h.model| + 1 + |h.revision|]
    requires ms + |h.model| + 1 + |h.revision| == |t| || !IsDigit(t[ms + |h.model| + 1 + |h.revision|])
    ensures RunLength(t, ms + |h.model| + 1, Digit) == |h.revision|
  {
    var k := ms + |h.model| + 1;
    forall i | k <= i < k + |h.revision|
      ensures InClass(t[i], Digit)
    {
      assert t[i] == h.revision[i - k];
    }
    RunLengthUnique(t, k, Digit, |h.revision|);
  }

  /** When the greedy runs from the start of `t` do not line up as the
      pattern needs, nothing matches at the start of `t`. */
  lemma NoHitHere(t: string, ms: nat, w: nat)
    requires ms == (if |t| > 0 && t[0] == ';' then 1 else 0)
    requires w == RunLength(t, ms, Word)
    requires w == 0 || ms + w == |t| || t[ms + w] != ',' || RunLength(t, ms + w + 1, Digit) == 0
    ensures forall h :: !IsHit(t, h)
  {
    forall h | IsHit(t, h)
      ensures false
    {
      HitDetermined(t, h);
    }
  }

  /** At most one match starts at any position. */
  lemma HitUnique(t: string, h1: Hit, h2: Hit)
    requires IsHit(t, h1) && IsHit(t, h2)
    ensures h1 == h2
  {
    HitDetermined(t, h1);
    HitDetermined(t, h2);
  }

  /** `MatchPrefix` returns a match exactly when there is one, and then that
      match. */
  lemma MatchPrefixExact(t: string, h: Hit)
    ensures MatchPrefix(t) == Some(h) <==> IsHit(t, h)
  {
    MatchPrefixCorrect(t);
    if IsHit(t, h) {
      HitUnique(t, h, MatchPrefix(t).value);
    }
  }

  /** A match is recognised by its text: `h` matches at the start of `u`
      exactly when `u` begins with the text of `h` and no digit follows it. */
  lemma IsHitByText(u: string, h: Hit)
    requires WellFormedHit(h)
    ensures IsHit(u, h) <==>
      && HitLength(h) <= |u|
      && u[..HitLength(h)] == HitText(h)
      && (HitLength(h) == |u| || !IsDigit(u[HitLength(h)]))
  {
    var ms := if h.semicolon then 1 else 0;
    var c := ms + |h.model|;
    var n := HitLength(h);
    var text := HitText(h);
    assert |text| == n;
    assert text[ms..c] == h.model;
    assert text[c] == ',';
    assert text[c + 1..] == h.revision;
    assert h.semicolon ==> text[0] == ';';
    if n <= |u| {
      if u[..n] == text {
        assert u[ms..c] == u[..n][ms..c];
        assert u[c + 1..n] == u[..n][c + 1..];
      }
      if IsHit(u, h) {
        assert u[..n] == text by {
          forall k | 0 <= k < n
            ensures u[k] == text[k]
          {
            if k < ms {
              assert u[k] == ';';
            } else if k < c {
              assert u[k] == u[ms..c][k - ms];
            } else if k > c {
              assert u[k] == u[c + 1..n][k - c - 1];
            }
          }
        }
      }
    }
  }

  /** `h` matches at index `q` of `s`. */
  predicate HitAt(s: string, q: nat, h: Hit) {
    q <= |s| && IsHit(s[q..], h)
  }

  function End(f: Found): nat {
    f.start + HitLength(f.hit)
  }

  /** All matches found from index `p` on, in the order `re.findall` finds
      them. */
  function FindAll(s: string, p: nat): (fs: seq<Found>)
    requires p <= |s|
    decreases |s| - p
  {
    if p == |s| then []
    else match MatchPrefix(s[p..])
      case Some(h) => [Found(p, h)] + FindAll(s, p + HitLength(h))
      case None => FindAll(s, p + 1)
  }

  // ---------------------------------------------------------------------
  // Declarative meaning of `re.findall`: the leftmost, non-overlapping scan.

  ghost predicate NoHitAt(s: string, q: nat) {
    forall h :: !HitAt(s, q, h)
  }

  ghost predicate NoHitIn(s: string, a: nat, b: nat) {
    forall q :: a <= q < b ==> NoHitAt(s, q)
  }

  /** `fs` is the leftmost scan of `s` from `p`: the first entry is a match
      at the first position from `p` on where a match exists, the rest is
      the leftmost scan from where that match ends, and a scan with no
      entries means no position from `p` on matches. */
  ghost predicate LeftmostScan(s: string, p: nat, fs: seq<Found>)
    decreases |fs|
  {
    if fs == [] then NoHitIn(s, p, |s|)
    else
      && p <= fs[0].start
      && NoHitIn(s, p, fs[0].start)
      && HitAt(s, fs[0].start, fs[0].hit)
      && LeftmostScan(s, End(fs[0]), fs[1..])
  }

  /** One step of the scanner when nothing matches at `p`. */
  lemma FindAllMiss(s: string, p: nat)
    requires p < |s| && MatchPrefix(s[p..]).None?
    ensures NoHitAt(s, p)
    ensures FindAll(s, p) == FindAll(s, p + 1)
  {
    MatchPrefixCorrect(s[p..]);
  }

  /** One step of the scanner when a match starts at `p`. */
  lemma FindAllHit(s: string, p: nat) returns (h: Hit)
    requires p < |s| && MatchPrefix(s[p..]).Some?
    ensures h == MatchPrefix(s[p..]).value
    ensures HitAt(s, p, h) && p + HitLength(h) <= |s|
    ensures FindAll(s, p) == [Found(p, h)] + FindAll(s, p + HitLength(h))
  {
    h := MatchPrefix(s[p..]).value;
    MatchPrefixCorrect(s[p..]);
  }

  /** The scanner performs the leftmost scan. */
  lemma {:induction false} FindAllIsLeftmostScan(s: string, p: nat)
    requires p <= |s|
    ensures LeftmostScan(s, p, FindAll(s, p))
    decreases |s| - p
  {
    if p == |s| {
      assert FindAll(s, p) == [];
    } else if MatchPrefix(s[p..]).None? {
      FindAllMiss(s, p);
      FindAllIsLeftmostScan(s, p + 1);
      LeftmostScanSkip(s, p, FindAll(s, p + 1));
    } else {
      var h := FindAllHit(s, p);
      FindAllIsLeftmostScan(s, p + HitLength(h));
      LeftmostScanCons(s, p, h, FindAll(s, p + HitLength(h)));
    }
  }

  /** A position with no match in front of a leftmost scan extends it. */
  lemma LeftmostScanSkip(s: string, p: nat, fs: seq<Found>)
    requires NoHitAt(s, p)
    requires LeftmostScan(s, p + 1, fs)
    ensures LeftmostScan(s, p, fs)
  {
    if fs == [] {
      assert NoHitIn(s, p + 1, |s|);
    } else {
      assert NoHitIn(s, p + 1, fs[0].start);
    }
  }

  /** A match in front of a leftmost scan from where it ends extends it. */
  lemma LeftmostScanCons(s: string, p: nat, h: Hit, fs: seq<Found>)
    requires HitAt(s, p, h)
    requires LeftmostScan(s, p + HitLength(h), fs)
    ensures LeftmostScan(s, p, [Found(p, h)] + fs)
  {
    assert ([Found(p, h)] + fs)[1..] == fs;
  }

  /** Every entry of a leftmost scan is a match lying inside `s`, at or after
      `p`, and entries do not overlap. */
  lemma {:induction false} LeftmostScanHits(s: string, p: nat, fs: seq<Found>)
    requires LeftmostScan(s, p, fs)
    ensures forall k :: 0 <= k < |fs| ==> p <= fs[k].start && HitAt(s, fs[k].start, fs[k].hit)
    ensures forall k :: 0 <= k < |fs| ==> End(fs[k]) <= |s|
    ensures forall k :: 0 <= k < |fs| - 1 ==> End(fs[k]) <= fs[k + 1].start
    decreases |fs|
  {
    if fs != [] {
      LeftmostScanHits(s, End(fs[0]), fs[1..]);
      assert forall k :: 1 <= k < |fs| ==> fs[k] == fs[1..][k - 1];
    }
  }

  /** When a match starts at `p`, a leftmost scan from `p` begins with it. */
  lemma FirstOfLeftmostScan(s: string, p: nat, fs: seq<Found>, h: Hit)
    requires p < |s|
    requires HitAt(s, p, h)
    requires LeftmostScan(s, p, fs)
    ensures fs != [] && fs[0] == Found(p, h)
  {
    var bound := if fs == [] then |s| else fs[0].start;
    assert NoHitIn(s, p, bound);
    assert !NoHitAt(s, p);
    assert fs != [] && fs[0].start == p;
    HitUnique(s[p..], h, fs[0].hit);
  }

  /** The leftmost scan is unique: any sequence with its properties is what
      the scanner returns. */
  lemma {:induction false} LeftmostScanUnique(s: string, p: nat, fs: seq<Found>)
    requires p <= |s|
    requires LeftmostScan(s, p, fs)
    ensures fs == FindAll(s, p)
    decreases |s| - p
  {
    if p == |s| {
      assert fs == [];
      assert FindAll(s, p) == [];
    } else if MatchPrefix(s[p..]).None? {
      FindAllMiss(s, p);
      LeftmostScanPastMiss(s, p, fs);
      LeftmostScanUnique(s, p + 1, fs);
    } else {
      var h := FindAllHit(s, p);
      FirstOfLeftmostScan(s, p, fs, h);
      LeftmostScanUnique(s, End(fs[0]), fs[1..]);
      assert fs == [fs[0]] + fs[1..];
    }
  }

  /** A leftmost scan from a position where nothing matches is also the
      leftmost scan from the next position. */
  lemma LeftmostScanPastMiss(s: string, p: nat, fs: seq<Found>)
    requires p < |s| && NoHitAt(s, p)
    requires LeftmostScan(s, p, fs)
    ensures LeftmostScan(s, p + 1, fs)
  {
    if fs != [] {
      assert !HitAt(s, p, fs[0].hit);
      assert NoHitIn(s, p + 1, fs[0].start);
    } else {
      assert NoHitIn(s, p + 1, |s|);
    }
  }

  // ---------------------------------------------------------------------
  // From matches to the slot map.

  /** The hits of a scan, without their positions. */
  function Hits(fs: seq<Found>): (hs: seq<Hit>)
    ensures |hs| == |fs|
    ensures forall k :: 0 <= k < |fs| ==> hs[k] == fs[k].hit
  {
    seq(|fs|, k requires 0 <= k < |fs| => fs[k].hit)
  }

  function ModelsOf(hs: seq<Hit>): (models: seq<string>)
    ensures |models| == |hs|
    ensures forall k :: 0 <= k < |hs| ==> models[k] == hs[k].model
  {
    seq(|hs|, k requires 0 <= k < |hs| => hs[k].model)
  }

  lemma HitsCons(f: Found, fs: seq<Found>)
    ensures Hits([f] + fs) == [f.hit] + Hits(fs)
  {
    assert forall k :: 1 <= k <= |fs| ==> ([f] + fs)[k] == fs[k - 1];
  }

  lemma SuffixShift(s: string, p: nat, u: string, p': nat, n: nat)
    requires p + n <= |s| && p' <= |u|
    requires s[p..] == u[p'..]
    ensures p' + n <= |u| && s[p + n..] == u[p' + n..]
  {
    assert s[p + n..] == s[p..][n..];
    assert u[p' + n..] == u[p'..][n..];
  }

  /** The scan only looks forward: two replies that agree from the scan
      position on yield the same matches. */
  lemma {:induction false} FindAllLocal(s: string, p: nat, u: string, p': nat)
    requires p <= |s| && p' <= |u|
    requires s[p..] == u[p'..]
    ensures Hits(FindAll(s, p)) == Hits(FindAll(u, p'))
    decreases |s| - p, 1
  {
    assert |s| - p == |u| - p';
    if p == |s| {
      assert FindAll(s, p) == [] && FindAll(u, p') == [];
    } else if MatchPrefix(s[p..]).None? {
      FindAllLocalMiss(s, p, u, p');
    } else {
      FindAllLocalHit(s, p, u, p');
    }
  }

  lemma {:induction false} FindAllLocalMiss(s: string, p: nat, u: string, p': nat)
    requires p < |s| && p' <= |u|
    requires s[p..] == u[p'..]
    requires MatchPrefix(s[p..]).None?
    ensures Hits(FindAll(s, p)) == Hits(FindAll(u, p'))
    decreases |s| - p, 0
  {
    assert MatchPrefix(u[p'..]).None?;
    FindAllMiss(s, p);
    FindAllMiss(u, p');
    SuffixShift(s, p, u, p', 1);
    FindAllLocal(s, p + 1, u, p' + 1);
  }

  lemma {:induction false} FindAllLocalHit(s: string, p: nat, u: string, p': nat)
    requires p < |s| && p' <= |u|
    requires s[p..] == u[p'..]
    requires MatchPrefix(s[p..]).Some?
    ensures Hits(FindAll(s, p)) == Hits(FindAll(u, p'))
    decreases |s| - p, 0
  {
    assert MatchPrefix(u[p'..]) == MatchPrefix(s[p..]);
    var h := FindAllHit(s, p);
    var h' := FindAllHit(u, p');
    var n := HitLength(h);
    SuffixShift(s, p, u, p', n);
    FindAllLocal(s, p + n, u, p' + n);
    HitsCons(Found(p, h), FindAll(s, p + n));
    HitsCons(Found(p', h), FindAll(u, p' + n));
  }

  /** Numbers the model tokens from slot 1 and drops the slots whose model is
      the empty-slot marker "0". */
  predicate Occupied(models: seq<string>, slot: nat) {
    1 <= slot <= |models| && models[slot - 1] != "0"
  }

  function SlotMap(models: seq<string>): map<nat, string> {
    map k: nat | 1 <= k <= |models| && Occupied(models, k) :: models[k - 1]
  }

  /** `parse_module_query_response`: the slot-to-model map of a `UNT? 0`
      reply. It never fails; every slot is positive, and every model is a
      non-empty run of word characters other than "0". */
  function ParseModuleQueryResponse(response: string): (slots: map<nat, string>)
    ensures forall k :: k in slots ==> 1 <= k && slots[k] != "0"
    ensures forall k :: k in slots ==> |slots[k]| > 0 && AllIn(slots[k], Word)
  {
    var fs := FindAll(response, 0);
    FindAllIsLeftmostScan(response, 0);
    LeftmostScanHits(response, 0, fs);
    SlotMap(ModelsOf(Hits(fs)))
  }

  /** The slot map in terms of the leftmost scan: its keys are exactly the
      1-based numbers of the matches whose model is not "0", each mapped to
      that match's model, so no key exceeds the number of matches. */
  lemma ParseModuleQueryResponseSpec(response: string, fs: seq<Found>)
    requires LeftmostScan(response, 0, fs)
    ensures var slots := ParseModuleQueryResponse(response);
      && (forall k: nat :: k in slots <==> 1 <= k <= |fs| && fs[k - 1].hit.model != "0")
      && (forall k: nat :: k in slots ==> slots[k] == fs[k - 1].hit.model)
  {
    LeftmostScanUnique(response, 0, fs);
  }

  /** A reply in which the pattern matches nowhere gives the empty map, with
      no error. */
  lemma NoMatchGivesEmptyInventory(response: string)
    requires NoHitIn(response, 0, |response|)
    ensures ParseModuleQueryResponse(response) == map[]
  {
    assert LeftmostScan(response, 0, []);
    LeftmostScanUnique(response, 0, []);
  }

  // ---------------------------------------------------------------------
  // The wire format of a well-formed reply, and reading it back.

  /** One installed module as the instrument reports it. */
  datatype SlotEntry = SlotEntry(model: string, revision: string)

  predicate WellFormedEntry(e: SlotEntry) {
    |e.model| > 0 && AllIn(e.model, Word) && IsDigits(e.revision)
  }

  /** `model,revision` pairs, each one after the first preceded by `;`
      (`sep` says whether the first one is too). */
  function EntriesText(entries: seq<SlotEntry>, sep: bool): string
    decreases |entries|
  {
    if entries == [] then ""
    else HitText(Hit(sep, entries[0].model, entries[0].revision)) + EntriesText(entries[1..], true)
  }

  /** A reply listing the given modules slot by slot, e.g. `"A,1;0,2;B,3"`. */
  function ReplyText(entries: seq<SlotEntry>): string {
    EntriesText(entries, false)
  }

  /** The matches expected from such a reply. */
  function EntryHits(entries: seq<SlotEntry>, sep: bool): (hs: seq<Hit>)
    ensures |hs| == |entries|
    ensures forall k :: 0 <= k < |entries| ==> hs[k].model == entries[k].model
    decreases |entries|
  {
    if entries == [] then []
    else [Hit(sep, entries[0].model, entries[0].revision)] + EntryHits(entries[1..], true)
  }

  lemma TailStartsWithSeparator(entries: seq<SlotEntry>)
    ensures EntriesText(entries, true) == [] || EntriesText(entries, true)[0] == ';'
  {
    if entries != [] {
      var h := Hit(true, entries[0].model, entries[0].revision);
      assert HitText(h)[0] == ';';
    }
  }

  /** Scanning a well-formed reply finds exactly its entries. */
  lemma {:induction false} ScanEntriesText(entries: seq<SlotEntry>, sep: bool)
    requires forall k :: 0 <= k < |entries| ==> WellFormedEntry(entries[k])
    ensures Hits(FindAll(EntriesText(entries, sep), 0)) == EntryHits(entries, sep)
    decreases |entries|
  {
    var t := EntriesText(entries, sep);
    if entries == [] {
      assert FindAll(t, 0) == [];
    } else {
      var h := Hit(sep, entries[0].model, entries[0].revision);
      var rest := EntriesText(entries[1..], true);
      var n := HitLength(h);
      assert t == HitText(h) + rest;
      assert t[..n] == HitText(h);
      TailStartsWithSeparator(entries[1..]);
      assert n == |t| || t[n] == rest[0];
      IsHitByText(t, h);
      assert t[0..] == t;
      MatchPrefixExact(t, h);
      var h' := FindAllHit(t, 0);
      assert t[n..] == rest[0..];
      FindAllLocal(t, n, rest, 0);
      ScanEntriesText(entries[1..], true);
      HitsCons(Found(0, h), FindAll(t, n));
    }
  }

  /** Round trip: parsing a well-formed reply gives the slot map of its
      entries, whatever their revisions. */
  lemma ParseReplyText(entries: seq<SlotEntry>)
    requires forall k :: 0 <= k < |entries| ==> WellFormedEntry(entries[k])
    ensures var slots := ParseModuleQueryResponse(ReplyText(entries));
      && (forall k: nat :: k in slots <==> 1 <= k <= |entries| && entries[k - 1].model != "0")
      && (forall k: nat :: k in slots ==> slots[k] == entries[k - 1].model)
  {
    ScanEntriesText(entries, false);
  }

  lemma ExampleReplyText()
    ensures ReplyText(ExampleEntries()) == "A,1;0,2;B,3"
  {
  }

  /** The reply's entries, with slot 2 holding no module. */
  function ExampleEntries(): (entries: seq<SlotEntry>)
    ensures |entries| == 3 && forall k :: 0 <= k < |entries| ==> WellFormedEntry(entries[k])
  {
    [SlotEntry("A", "1"), SlotEntry("0", "2"), SlotEntry("B", "3")]
  }

  lemma ExampleSlots()
    ensures ParseModuleQueryResponse(ReplyText(ExampleEntries())) == map[1 := "A", 3 := "B"]
  {
    var entries := ExampleEntries();
    ParseReplyText(entries);
    ExampleSlotsOf(ParseModuleQueryResponse(ReplyText(entries)));
  }

  /** The only map that the round trip allows for the example entries. */
  lemma ExampleSlotsOf(slots: map<nat, string>)
    requires var entries := ExampleEntries();
      && (forall k: nat :: k in slots <==> 1 <= k <= |entries| && entries[k - 1].model != "0")
      && (forall k: nat :: k in slots ==> slots[k] == entries[k - 1].model)
    ensures slots == map[1 := "A", 3 := "B"]
  {
    var entries := ExampleEntries();
    assert slots.Keys == {1, 3} by {
      forall k: nat
        ensures k in slots <==> k == 1 || k == 3
      {
        assert k in slots <==> 1 <= k <= 3 && entries[k - 1].model != "0";
      }
    }
  }

  /** The three-slot example: slot 2 holds no module. */
  lemma ParseExample()
    ensures ParseModuleQueryResponse("A,1;0,2;B,3") == map[1 := "A", 3 := "B"]
  {
    ExampleReplyText();
    ExampleSlots();
  }
}
