/**
 Stripping rshx's password marker from a Host's stderr, which arrives in chunks.

 The reference is `Strip`, which scans a whole stream from the left. The filter
 sees one chunk at a time; `Settled` and `Pending` say what a scan of the stream
 so far has decided and what it must still hold back.
 */
module Markers {
  import opened Wrappers

  // ----- whole-stream reference -----

  /** The stream with its leftmost non-overlapping markers removed. */
  function Strip<T(==)>(m: seq<T>, s: seq<T>): seq<T>
    requires m != []
  {
    if s == [] then []
    else if m <= s then Strip(m, s[|m|..])
    else [s[0]] + Strip(m, s[1..])
  }

  /** Where each removed marker ends, counting the stream's first byte as `base`. */
  function Ends<T(==)>(m: seq<T>, s: seq<T>, base: nat): seq<nat>
    requires m != []
    decreases |s|
  {
    if s == [] then []
    else if m <= s then [base + |m|] + Ends(m, s[|m|..], base + |m|)
    else Ends(m, s[1..], base + 1)
  }

  /** How many markers are removed. */
  function Count<T(==)>(m: seq<T>, s: seq<T>): nat
    requires m != []
  {
    if s == [] then 0
    else if m <= s then 1 + Count(m, s[|m|..])
    else Count(m, s[1..])
  }

  lemma {:induction false} CountIsEnds<T>(m: seq<T>, s: seq<T>, base: nat)
    requires m != []
    ensures |Ends(m, s, base)| == Count(m, s)
    decreases |s|
  {
    if s == [] {
    } else if m <= s {
      CountIsEnds(m, s[|m|..], base + |m|);
    } else {
      CountIsEnds(m, s[1..], base + 1);
    }
  }

  /** The first `cap` bytes of a stream. */
  function Capped<T>(s: seq<T>, cap: nat): seq<T> {
    if |s| <= cap then s else s[..cap]
  }

  // ----- what a prefix of the stream decides -----

  /** The first suffix the scan reaches that a longer stream could complete to a marker. */
  function Pending<T(==)>(m: seq<T>, s: seq<T>): (r: seq<T>)
    requires m != []
    ensures |r| < |m| && r <= m && |r| <= |s|
  {
    if s == [] then []
    else if m <= s then Pending(m, s[|m|..])
    else if s <= m then s
    else Pending(m, s[1..])
  }

  /** The output no continuation of the stream can take back. */
  function Settled<T(==)>(m: seq<T>, s: seq<T>): seq<T>
    requires m != []
  {
    if s == [] then []
    else if m <= s then Settled(m, s[|m|..])
    else if s <= m then []
    else [s[0]] + Settled(m, s[1..])
  }

  /** Where the scan steps over one byte of `s`, no continuation of `s` makes it do otherwise. */
  lemma StepIsFinal<T>(m: seq<T>, s: seq<T>, x: seq<T>)
    requires s != [] && !(m <= s) && !(s <= m)
    ensures (s + x)[1..] == s[1..] + x && (s + x)[0] == s[0]
    ensures !(m <= s + x) && !(s + x <= m)
  {
    assert forall k :: 0 <= k < |s| ==> (s + x)[k] == s[k];
  }

  lemma MarkerIsFinal<T>(m: seq<T>, s: seq<T>, x: seq<T>)
    requires m <= s
    ensures m <= s + x && (s + x)[|m|..] == s[|m|..] + x
  {
  }

  lemma Reassociate<T>(whole: seq<T>, a: seq<T>, b: seq<T>, c: seq<T>, bc: seq<T>)
    requires whole == a + bc && bc == b + c
    ensures whole == (a + b) + c
  {
  }

  /** A scan of `s + x` is a scan of `s`, resumed from what `s` left pending. */
  lemma {:induction false} StripResumes<T>(m: seq<T>, s: seq<T>, x: seq<T>)
    requires m != []
    ensures Strip(m, s + x) == Settled(m, s) + Strip(m, Pending(m, s) + x)
    decreases |s|
  {
    if s == [] {
      assert s + x == x;
    } else if m <= s {
      MarkerIsFinal(m, s, x);
      StripResumes(m, s[|m|..], x);
    } else if !(s <= m) {
      StepIsFinal(m, s, x);
      StripResumes(m, s[1..], x);
      Reassociate(Strip(m, s + x), [s[0]], Settled(m, s[1..]), Strip(m, Pending(m, s) + x), Strip(m, s[1..] + x));
    }
  }

  /** The filter's state after `s + x` depends on `s` only through what `s` left pending. */
  lemma {:induction false} FilterResumes<T>(m: seq<T>, s: seq<T>, x: seq<T>)
    requires m != []
    ensures Settled(m, s + x) == Settled(m, s) + Settled(m, Pending(m, s) + x)
    ensures Pending(m, s + x) == Pending(m, Pending(m, s) + x)
    decreases |s|
  {
    if s == [] {
      assert s + x == x;
    } else if m <= s {
      MarkerIsFinal(m, s, x);
      FilterResumes(m, s[|m|..], x);
    } else if !(s <= m) {
      StepIsFinal(m, s, x);
      FilterResumes(m, s[1..], x);
      Reassociate(Settled(m, s + x), [s[0]], Settled(m, s[1..]), Settled(m, Pending(m, s) + x), Settled(m, s[1..] + x));
    }
  }

  lemma CountResumes<T>(m: seq<T>, s: seq<T>, x: seq<T>)
    requires m != []
    ensures Count(m, s + x) == Count(m, s) + Count(m, Pending(m, s) + x)
  {
    EndsResume(m, s, x, 0);
    CountIsEnds(m, s + x, 0);
    CountIsEnds(m, s, 0);
    CountIsEnds(m, Pending(m, s) + x, |s| - |Pending(m, s)|);
  }

  lemma {:induction false} EndsResume<T>(m: seq<T>, s: seq<T>, x: seq<T>, base: nat)
    requires m != []
    ensures Ends(m, s + x, base) == Ends(m, s, base) + Ends(m, Pending(m, s) + x, base + |s| - |Pending(m, s)|)
    decreases |s|
  {
    if s == [] {
      assert s + x == x;
    } else if m <= s {
      MarkerIsFinal(m, s, x);
      EndsResume(m, s[|m|..], x, base + |m|);
      Reassociate(Ends(m, s + x, base), [base + |m|], Ends(m, s[|m|..], base + |m|),
                  Ends(m, Pending(m, s) + x, base + |s| - |Pending(m, s)|), Ends(m, s[|m|..] + x, base + |m|));
    } else if s <= m {
      SettlesNothing(m, s, base);
    } else {
      StepIsFinal(m, s, x);
      EndsResume(m, s[1..], x, base + 1);
    }
  }

  /** A text shorter than the marker holds no marker, so it is its own stripped form. */
  lemma {:induction false} SettlesNothing<T>(m: seq<T>, s: seq<T>, base: nat)
    requires |s| < |m|
    ensures Strip(m, s) == s && Ends(m, s, base) == []
    decreases |s|
  {
    if s != [] {
      SettlesNothing(m, s[1..], base + 1);
    }
  }

  /** What is settled and what is pending is the whole stripped stream: nothing is lost at the end. */
  lemma StripIsSettledThenPending<T>(m: seq<T>, s: seq<T>)
    requires m != []
    ensures Strip(m, s) == Settled(m, s) + Pending(m, s)
  {
    StripResumes(m, s, []);
    assert s + [] == s && Pending(m, s) + [] == Pending(m, s);
    SettlesNothing(m, Pending(m, s), 0);
  }

  /**
   Holding back is necessary: some continuation completes whatever is pending to a
   marker, so a filter that wrote any byte of it could be wrong.
   */
  lemma PendingMayVanish<T>(m: seq<T>, s: seq<T>)
    requires m != []
    ensures var x := m[|Pending(m, s)|..];
            Strip(m, s + x) == Settled(m, s)
  {
    var h := Pending(m, s);
    var x := m[|h|..];
    StripResumes(m, s, x);
    assert h + x == m;
    assert Strip(m, m) == Strip(m, m[|m|..]) == [];
  }

  /** No byte is unaccounted for: the stream is the kept bytes and the markers. */
  lemma {:induction false} StripConserves<T>(m: seq<T>, s: seq<T>)
    requires m != []
    ensures |s| == |Strip(m, s)| + Times(Count(m, s), |m|)
    decreases |s|
  {
    if s == [] {
    } else if m <= s {
      StripConserves(m, s[|m|..]);
    } else {
      StripConserves(m, s[1..]);
    }
  }

  function Times(k: nat, n: nat): nat {
    if k == 0 then 0 else n + Times(k - 1, n)
  }

  /** Ends lie after the base, no closer than a marker's length, and within the stream. */
  lemma {:induction false} EndsLieWithin<T>(m: seq<T>, s: seq<T>, base: nat)
    requires m != []
    ensures forall e :: e in Ends(m, s, base) ==> base + |m| <= e <= base + |s|
    decreases |s|
  {
    if s == [] {
    } else if m <= s {
      EndsLieWithin(m, s[|m|..], base + |m|);
    } else {
      EndsLieWithin(m, s[1..], base + 1);
    }
  }

  lemma MarkerInTail<T>(m: seq<T>, s: seq<T>, k: nat, i: nat, j: nat)
    requires k <= |s| && i <= j <= |s| - k && s[k..][i..j] == m
    ensures s[k + i..k + j] == m
  {
    assert s[k..][i..j] == s[k + i..k + j];
  }

  lemma MarkerInFront<T>(m: seq<T>, s: seq<T>)
    requires m <= s
    ensures s[0..|m|] == m
  {
  }

  /** Every reported end is the end of an occurrence of the marker. */
  lemma {:induction false} EndIsAMarker<T>(m: seq<T>, s: seq<T>, base: nat, e: nat)
    requires m != [] && e in Ends(m, s, base)
    ensures base + |m| <= e <= base + |s| && s[e - base - |m|..e - base] == m
    decreases |s|
  {
    FirstOrLater(m, s, base, e);
    EndsLieWithin(m, s, base);
    if m <= s && e == base + |m| {
      MarkerInFront(m, s);
    } else {
      var k := if m <= s then |m| else 1;
      EndIsAMarker(m, s[k..], base + k, e);
      MarkerInTail(m, s, k, e - base - k - |m|, e - base - k);
    }
  }

  lemma FirstOrLater<T>(m: seq<T>, s: seq<T>, base: nat, e: nat)
    requires m != [] && e in Ends(m, s, base)
    ensures if m <= s then e == base + |m| || e in Ends(m, s[|m|..], base + |m|)
            else s != [] && e in Ends(m, s[1..], base + 1)
  {
  }

  /** Stripping `s` removes a marker whose last byte lies in `s[lo..hi]`. */
  ghost predicate EndsWithin<T>(m: seq<T>, s: seq<T>, lo: nat, hi: nat)
    requires m != []
  {
    exists e :: e in Ends(m, s, 0) && lo < e <= hi
  }

  /** The markers a chunk adds are exactly the whole stream's that end inside that chunk. */
  lemma ChunkHoldsItsEnds<T>(m: seq<T>, before: seq<T>, chunk: seq<T>, rest: seq<T>)
    requires m != []
    ensures EndsWithin(m, before + chunk + rest, |before|, |before + chunk|)
       <==> Count(m, before + chunk) > Count(m, before)
  {
    CountIsEnds(m, before, 0);
    CountIsEnds(m, before + chunk, 0);
    var h := Pending(m, before);
    var h' := Pending(m, before + chunk);
    EndsResume(m, before, chunk, 0);
    EndsResume(m, before + chunk, rest, 0);
    var mid := Ends(m, h + chunk, |before| - |h|);
    var late := Ends(m, h' + rest, |before + chunk| - |h'|);
    assert Ends(m, before + chunk + rest, 0) == Ends(m, before, 0) + mid + late;
    EndsLieWithin(m, before, 0);
    EndsLieWithin(m, h + chunk, |before| - |h|);
    EndsLieWithin(m, h' + rest, |before + chunk| - |h'|);
    if mid != [] {
      assert mid[0] in mid;
      assert mid[0] in Ends(m, before + chunk + rest, 0);
    }
  }

  // ----- the search the filter runs -----

  /** The first marker in `s` starts at `at`. */
  ghost predicate FirstAt<T>(m: seq<T>, s: seq<T>, at: nat) {
    if at == 0 then m <= s
    else s != [] && !(m <= s) && FirstAt(m, s[1..], at - 1)
  }

  /** `s` holds no marker. */
  ghost predicate Unmarked<T>(m: seq<T>, s: seq<T>) {
    !(m <= s) && (s == [] || Unmarked(m, s[1..]))
  }

  /** Where `needle` first occurs, by trying each place in turn. */
  function Find<T(==)>(haystack: seq<T>, needle: seq<T>): (r: Option<nat>)
    requires needle != []
    ensures r.Some? ==> FirstAt(needle, haystack, r.value) && r.value + |needle| <= |haystack|
    ensures r.None? ==> Unmarked(needle, haystack)
  {
    if needle <= haystack then Some(0)
    else if haystack == [] then None
    else
      var r := Find(haystack[1..], needle);
      if r.None? then None else Some(r.value + 1)
  }

  /** `FirstAt` is what it says: an occurrence, and none to the left of it. */
  lemma {:induction false} FirstAtIsLeftmost<T>(m: seq<T>, s: seq<T>, at: nat)
    requires m != [] && FirstAt(m, s, at)
    ensures at < |s| && m <= s[at..]
    ensures forall j :: 0 <= j < at ==> !(m <= s[j..])
    decreases at
  {
    assert s[0..] == s;
    if at > 0 {
      FirstAtIsLeftmost(m, s[1..], at - 1);
      forall j | 0 < j <= at ensures s[1..][j - 1..] == s[j..] {}
    }
  }

  /** Scanning up to the first marker settles the text before it and starts afresh after it. */
  lemma ScanToMarker<T>(m: seq<T>, s: seq<T>, at: nat)
    requires m != [] && FirstAt(m, s, at) && at + |m| <= |s|
    ensures Settled(m, s) == s[..at] + Settled(m, s[at + |m|..])
    ensures Pending(m, s) == Pending(m, s[at + |m|..])
  {
    SettledToMarker(m, s, at);
    PendingPastMarker(m, s, at);
  }

  lemma {:induction false} PendingPastMarker<T>(m: seq<T>, s: seq<T>, at: nat)
    requires m != [] && FirstAt(m, s, at) && at + |m| <= |s|
    ensures Pending(m, s) == Pending(m, s[at + |m|..])
    decreases at
  {
    if at > 0 {
      NotYetAMarker(m, s, at);
      PendingPastMarker(m, s[1..], at - 1);
      OneAlong(s, at, |m|);
    }
  }

  lemma {:induction false} SettledToMarker<T>(m: seq<T>, s: seq<T>, at: nat)
    requires m != [] && FirstAt(m, s, at) && at + |m| <= |s|
    ensures Settled(m, s) == s[..at] + Settled(m, s[at + |m|..])
    decreases at
  {
    if at > 0 {
      var t, rest := s[1..], s[at + |m|..];
      var front := t[..at - 1];
      assert Settled(m, t) == front + Settled(m, rest) by {
        SettledToMarker(m, t, at - 1);
        OneAlong(s, at, |m|);
      }
      NotYetAMarker(m, s, at);
      Reassociate(Settled(m, s), [s[0]], front, Settled(m, rest), Settled(m, t));
      OneAlong(s, at, |m|);
    }
  }

  lemma OneAlong<T>(s: seq<T>, at: nat, skip: nat)
    requires 0 < at && at + skip <= |s|
    ensures s[1..][at - 1 + skip..] == s[at + skip..] && [s[0]] + s[1..][..at - 1] == s[..at]
  {
  }

  lemma NotYetAMarker<T>(m: seq<T>, s: seq<T>, at: nat)
    requires m != [] && 0 < at && FirstAt(m, s, at) && at + |m| <= |s|
    ensures Settled(m, s) == [s[0]] + Settled(m, s[1..]) && Pending(m, s) == Pending(m, s[1..])
  {
  }

  lemma {:induction false} CountToMarker<T>(m: seq<T>, s: seq<T>, at: nat)
    requires m != [] && FirstAt(m, s, at) && at + |m| <= |s|
    ensures Count(m, s) == 1 + Count(m, s[at + |m|..])
    decreases at
  {
    if at > 0 {
      CountToMarker(m, s[1..], at - 1);
      assert s[1..][at - 1 + |m|..] == s[at + |m|..];
    }
  }

  /** The longest suffix of `tail` that is a proper start of a marker begins at `safe`. */
  ghost predicate LongestStart<T>(m: seq<T>, tail: seq<T>, safe: nat) {
    && safe <= |tail| < safe + |m| && tail[safe..] <= m
    && forall j :: 0 <= j < safe && |tail| - j < |m| ==> !(tail[j..] <= m)
  }

  /** With no marker in sight the longest suffix that starts one is pending; all before it is settled. */
  lemma {:induction false} ScanWithoutMarker<T>(m: seq<T>, s: seq<T>, safe: nat)
    requires m != [] && Unmarked(m, s) && LongestStart(m, s, safe)
    ensures Settled(m, s) == s[..safe] && Pending(m, s) == s[safe..]
    decreases |s|
  {
    assert s[0..] == s;
    if safe > 0 {
      var t := s[1..];
      assert t[safe - 1..] == s[safe..];
      forall j | 0 <= j < safe - 1 && |t| - j < |m|
        ensures !(t[j..] <= m)
      {
        assert t[j..] == s[j + 1..];
      }
      ScanWithoutMarker(m, t, safe - 1);
      assert [s[0]] + t[..safe - 1] == s[..safe];
    }
  }

  lemma {:induction false} CountsNothing<T>(m: seq<T>, s: seq<T>)
    requires m != [] && Unmarked(m, s)
    ensures Count(m, s) == 0
    decreases |s|
  {
    if s != [] {
      CountsNothing(m, s[1..]);
    }
  }

  /** The filter has gone through `text` up to `rest`, writing `out` and finding `count` markers. */
  ghost predicate Scanned<T>(m: seq<T>, text: seq<T>, rest: seq<T>, out: seq<T>, count: nat)
    requires m != []
  {
    && Settled(m, text) == out + Settled(m, rest)
    && Pending(m, text) == Pending(m, rest)
    && Count(m, text) == count + Count(m, rest)
  }

  lemma ScannedMarker<T>(m: seq<T>, text: seq<T>, rest: seq<T>, out: seq<T>, count: nat, at: nat)
    requires m != [] && Scanned(m, text, rest, out, count) && FirstAt(m, rest, at) && at + |m| <= |rest|
    ensures Scanned(m, text, rest[at + |m|..], out + rest[..at], count + 1)
  {
    var u := rest[at + |m|..];
    ScanToMarker(m, rest, at);
    CountToMarker(m, rest, at);
    Reassociate(Settled(m, text), out, rest[..at], Settled(m, u), Settled(m, rest));
  }

  /** Where the longest suffix that a marker could still grow out of begins. */
  method SafePrefix<T(==)>(tail: seq<T>, marker: seq<T>) returns (safe: nat)
    requires marker != []
    ensures LongestStart(marker, tail, safe)
  {
    var len := if |tail| < |marker| - 1 then |tail| else |marker| - 1;
    while len >= 1
      invariant 0 <= len <= |tail| && len < |marker|
      invariant forall j :: 0 <= j < |tail| - len && |tail| - j < |marker| ==> !(tail[j..] <= marker)
    {
      if tail[|tail| - len..] == marker[..len] {
        return |tail| - len;
      }
      len := len - 1;
    }
    assert tail[|tail|..] == [];
    return |tail|;
  }

  // ----- the filter -----

  /** What a push came to: a marker was completed, the cap cut something. */
  datatype Filtered = Filtered(asked: bool, dropped: bool)

  /** `kept` with as many of the bytes as there is room for, and whether that was all of them. */
  function Keep<T>(bytes: seq<T>, kept: seq<T>, cap: nat): (seq<T>, bool) {
    var room := if |kept| <= cap then cap - |kept| else 0;
    (kept + bytes[..if room < |bytes| then room else |bytes|], room >= |bytes|)
  }

  /** Keeping twice is keeping the concatenation once. */
  lemma KeepTwice<T>(a: seq<T>, b: seq<T>, kept: seq<T>, cap: nat)
    ensures Keep(b, Keep(a, kept, cap).0, cap).0 == Keep(a + b, kept, cap).0
    ensures (Keep(a, kept, cap).1 && Keep(b, Keep(a, kept, cap).0, cap).1) <==> Keep(a + b, kept, cap).1
  {
    assert kept + (a + b) == kept + a + b;
  }

  /** What is kept so far, and then some more, is the longer text kept from the start. */
  lemma KeepMore<T>(out: seq<T>, piece: seq<T>, kept: seq<T>, cap: nat, kept': seq<T>, dropped: bool)
    requires (kept', !dropped) == Keep(out, kept, cap)
    ensures var keep := Keep(piece, kept', cap);
            (keep.0, !(dropped || !keep.1)) == Keep(out + piece, kept, cap)
  {
    KeepTwice(out, piece, kept, cap);
  }

  /** With no marker left, what is kept so far and the settled part of the rest are all that is settled. */
  lemma KeepRest<T>(m: seq<T>, text: seq<T>, rest: seq<T>, out: seq<T>, count: nat,
                    kept: seq<T>, cap: nat, kept': seq<T>, dropped: bool)
    requires m != [] && Scanned(m, text, rest, out, count) && Unmarked(m, rest)
    requires (kept', !dropped) == Keep(out, kept, cap)
    ensures Pending(m, text) == Pending(m, rest) && Count(m, text) == count
    ensures var keep := Keep(Settled(m, rest), kept', cap);
            (keep.0, !(dropped || !keep.1)) == Keep(Settled(m, text), kept, cap)
  {
    CountsNothing(m, rest);
    KeepMore(out, Settled(m, rest), kept, cap, kept', dropped);
  }

  lemma NothingScanned<T>(m: seq<T>, text: seq<T>, kept: seq<T>, cap: nat)
    requires m != []
    ensures Scanned(m, text, text, [], 0) && Keep([], kept, cap) == (kept, true) && text[0..] == text
  {
    assert text[0..] == text;
    assert kept + [] == kept;
  }

  class MarkerFilter<T(==)> {
    const marker: seq<T>
    /** The bytes pushed but not yet decided. */
    var held: seq<T>
    /** Everything pushed so far. */
    ghost var seen: seq<T>

    ghost predicate Valid()
      reads this
    {
      marker != [] && held == Pending(marker, seen)
    }

    constructor (marker: seq<T>)
      requires marker != []
      ensures Valid() && seen == [] && this.marker == marker
    {
      this.marker := marker;
      held := [];
      seen := [];
    }

    /** Takes in a chunk, and adds to `kept` what it decides. */
    method Push(chunk: seq<T>, kept: seq<T>, cap: nat) returns (kept': seq<T>, filtered: Filtered)
      requires Valid()
      modifies this
      ensures Valid() && seen == old(seen) + chunk
      ensures var news := Settled(marker, old(held) + chunk);
              && Settled(marker, seen) == Settled(marker, old(seen)) + news
              && (kept', !filtered.dropped) == Keep(news, kept, cap)
      ensures filtered.asked <==> Count(marker, seen) > Count(marker, old(seen))
    {
      FilterResumes(marker, seen, chunk);
      CountResumes(marker, seen, chunk);
      kept', filtered := PushText(held + chunk, kept, cap);
      seen := seen + chunk;
    }

    /** Filters the held tail and the new chunk, as one text; `rest` is what is left to look at. */
    method PushText(text: seq<T>, kept: seq<T>, cap: nat) returns (kept': seq<T>, filtered: Filtered)
      requires marker != []
      modifies this`held
      ensures held == Pending(marker, text)
      ensures (kept', !filtered.dropped) == Keep(Settled(marker, text), kept, cap)
      ensures filtered.asked <==> Count(marker, text) > 0
    {
      var rest, asked, dropped := text, false, false;
      kept' := kept;
      ghost var out: seq<T>, count := [], 0;
      NothingScanned(marker, text, kept, cap);
      var next := Find(rest, marker);
      while next.Some?
        invariant Scanned(marker, text, rest, out, count)
        invariant next == Find(rest, marker)
        invariant (kept', !dropped) == Keep(out, kept, cap)
        invariant asked <==> count > 0
        decreases |rest|
      {
        var piece := rest[..next.value];
        ScannedMarker(marker, text, rest, out, count, next.value);
        KeepMore(out, piece, kept, cap, kept', dropped);
        var keep := Keep(piece, kept', cap);
        kept', dropped := keep.0, dropped || !keep.1;
        asked := true;
        out, count := out + piece, count + 1;
        rest := rest[next.value + |marker|..];
        next := Find(rest, marker);
      }

      KeepRest(marker, text, rest, out, count, kept, cap, kept', dropped);
      var more;
      kept', more := PushTail(rest, kept', cap);
      filtered := Filtered(asked, dropped || more);
    }

    /** A text without a marker: all of it is decided but the start of one at its end. */
    method PushTail(tail: seq<T>, kept: seq<T>, cap: nat) returns (kept': seq<T>, dropped: bool)
      requires marker != [] && Unmarked(marker, tail)
      modifies this`held
      ensures held == Pending(marker, tail)
      ensures (kept', !dropped) == Keep(Settled(marker, tail), kept, cap)
    {
      var safe := SafePrefix(tail, marker);
      ScanWithoutMarker(marker, tail, safe);
      var keep := Keep(tail[..safe], kept, cap);
      kept', dropped := keep.0, !keep.1;
      held := tail[safe..];
    }

    /** The end of the stream decides the rest: no marker was coming. */
    method Finish(kept: seq<T>, cap: nat) returns (kept': seq<T>, dropped: bool)
      requires Valid()
      modifies this`held
      ensures held == []
      ensures Strip(marker, seen) == Settled(marker, seen) + old(held)
      ensures (kept', !dropped) == Keep(old(held), kept, cap)
    {
      StripIsSettledThenPending(marker, seen);
      var keep := Keep(held, kept, cap);
      held := [];
      kept', dropped := keep.0, !keep.1;
    }
  }

  // ----- the stderr reader -----

  /** One read of a Host's stderr. An empty read is the end of the stream. */
  datatype Read<+T> = Bytes(bytes: seq<T>) | Failed

  /** The chunks a reader sees before the stream ends or a read fails. */
  function Chunks<T>(input: seq<Read<T>>): (r: seq<seq<T>>)
    ensures |r| <= |input|
    ensures forall k :: 0 <= k < |r| ==> input[k] == Bytes(r[k]) && r[k] != []
    ensures |r| < |input| ==> input[|r|].Failed? || input[|r|].bytes == []
  {
    if input == [] || input[0].Failed? || input[0].bytes == [] then []
    else [input[0].bytes] + Chunks(input[1..])
  }

  function Flat<T>(chunks: seq<seq<T>>): seq<T> {
    if chunks == [] then [] else Flat(chunks[..|chunks| - 1]) + chunks[|chunks| - 1]
  }

  lemma {:induction false} FlatSplits<T>(chunks: seq<seq<T>>, k: nat)
    requires k < |chunks|
    ensures Flat(chunks[..k + 1]) == Flat(chunks[..k]) + chunks[k]
    ensures Flat(chunks[..k + 1]) <= Flat(chunks)
    decreases |chunks|
  {
    assert chunks[..k + 1][..k] == chunks[..k];
    if k + 1 == |chunks| {
      assert chunks[..k + 1] == chunks;
    } else {
      var front := chunks[..|chunks| - 1];
      FlatSplits(front, k);
      assert front[..k + 1] == chunks[..k + 1];
    }
  }

  /** Chunk `k` holds the last byte of a marker that stripping the whole stream removes. */
  ghost predicate HoldsMarkerEnd<T>(m: seq<T>, chunks: seq<seq<T>>, k: nat)
    requires m != [] && k < |chunks|
  {
    EndsWithin(m, Flat(chunks), |Flat(chunks[..k])|, |Flat(chunks[..k + 1])|)
  }

  lemma PushedChunkAsks<T>(m: seq<T>, chunks: seq<seq<T>>, k: nat)
    requires m != [] && k < |chunks|
    ensures Flat(chunks[..k + 1]) == Flat(chunks[..k]) + chunks[k]
    ensures Count(m, Flat(chunks[..k + 1])) > Count(m, Flat(chunks[..k])) <==> HoldsMarkerEnd(m, chunks, k)
  {
    FlatSplits(chunks, k);
    var rest := Flat(chunks)[|Flat(chunks[..k + 1])|..];
    assert Flat(chunks) == Flat(chunks[..k]) + chunks[k] + rest;
    ChunkHoldsItsEnds(m, Flat(chunks[..k]), chunks[k], rest);
  }

  /** The asks made over the first `i` chunks, and whether another would be made: `answers(k)` is what an ask at chunk `k` gets. */
  ghost function Asked<T>(m: seq<T>, chunks: seq<seq<T>>, answers: nat -> bool, i: nat): (seq<nat>, bool)
    requires m != [] && i <= |chunks|
  {
    if i == 0 then ([], true)
    else
      var (asks, answerable) := Asked(m, chunks, answers, i - 1);
      if answerable && HoldsMarkerEnd(m, chunks, i - 1) then (asks + [i - 1], answers(i - 1))
      else (asks, answerable)
  }

  /** Every ask a chunk before `k` called for was answered. */
  ghost predicate AnswerableBefore<T>(m: seq<T>, chunks: seq<seq<T>>, answers: nat -> bool, k: nat)
    requires m != [] && k <= |chunks|
  {
    forall j: nat :: j < k && HoldsMarkerEnd(m, chunks, j) ==> answers(j)
  }

  lemma {:induction false} AnswerableWhileAnswered<T>(m: seq<T>, chunks: seq<seq<T>>, answers: nat -> bool, i: nat)
    requires m != [] && i <= |chunks|
    ensures Asked(m, chunks, answers, i).1 <==> AnswerableBefore(m, chunks, answers, i)
  {
    if i > 0 {
      AnswerableWhileAnswered(m, chunks, answers, i - 1);
    }
  }

  /** An ask is made exactly at the chunks that complete a marker, in order, up to the first that goes unanswered. */
  lemma {:induction false} AskedAtMarkerEnds<T>(m: seq<T>, chunks: seq<seq<T>>, answers: nat -> bool, i: nat)
    requires m != [] && i <= |chunks|
    ensures forall k: nat :: k in Asked(m, chunks, answers, i).0 <==>
              k < i && HoldsMarkerEnd(m, chunks, k) && AnswerableBefore(m, chunks, answers, k)
  {
    if i > 0 {
      AskedAtMarkerEnds(m, chunks, answers, i - 1);
      AnswerableWhileAnswered(m, chunks, answers, i - 1);
    }
  }

  /** What the report keeps of the stream so far. */
  ghost predicate Kept<T>(s: seq<T>, cap: nat, kept: seq<T>, truncated: bool) {
    kept == Capped(s, cap) && (truncated <==> |s| > cap)
  }

  lemma KeptMore<T>(s: seq<T>, more: seq<T>, cap: nat, kept: seq<T>, truncated: bool)
    requires Kept(s, cap, kept, truncated)
    ensures var keep := Keep(more, kept, cap);
            Kept(s + more, cap, keep.0, truncated || !keep.1)
  {
  }

  /**
   Reads a Host's stderr, asking for a password whenever a chunk completes a
   marker, until an ask goes unanswered. `answers(k)` is whether an ask made at
   chunk `k` is answered; `asks` is the chunks an ask was made at.
   */
  method ReadStderr<T(==)>(input: seq<Read<T>>, marker: seq<T>, cap: nat, answers: nat -> bool)
    returns (kept: seq<T>, truncated: bool, asks: seq<nat>)
    requires marker != []
    ensures Kept(Strip(marker, Flat(Chunks(input))), cap, kept, truncated)
    ensures asks == Asked(marker, Chunks(input), answers, |Chunks(input)|).0
  {
    ghost var chunks := Chunks(input);
    var filter := new MarkerFilter(marker);
    kept, truncated, asks := [], false, [];
    var answerable := true;
    var i := 0;
    while i < |input| && input[i].Bytes? && input[i].bytes != []
      invariant 0 <= i <= |chunks|
      invariant fresh(filter) && filter.Valid() && filter.marker == marker && filter.seen == Flat(chunks[..i])
      invariant Kept(Settled(marker, filter.seen), cap, kept, truncated)
      invariant (asks, answerable) == Asked(marker, chunks, answers, i)
      decreases |input| - i
    {
      PushedChunkAsks(marker, chunks, i);
      KeptMore(Settled(marker, filter.seen), Settled(marker, filter.held + chunks[i]), cap, kept, truncated);
      var filtered;
      kept, filtered := filter.Push(input[i].bytes, kept, cap);
      truncated := truncated || filtered.dropped;
      if filtered.asked && answerable {
        asks := asks + [i];
        answerable := answers(i);
      }
      i := i + 1;
    }
    assert chunks[..i] == chunks;
    KeptMore(Settled(marker, filter.seen), filter.held, cap, kept, truncated);
    var dropped;
    kept, dropped := filter.Finish(kept, cap);
    truncated := truncated || dropped;
  }

  /** Reads a stream nobody can be asked about: capped, and drained whatever it holds. */
  method ReadCapped<T>(input: seq<Read<T>>, cap: nat) returns (kept: seq<T>, truncated: bool)
    ensures Kept(Flat(Chunks(input)), cap, kept, truncated)
  {
    ghost var chunks := Chunks(input);
    kept, truncated := [], false;
    var i := 0;
    while i < |input| && input[i].Bytes? && input[i].bytes != []
      invariant 0 <= i <= |chunks|
      invariant Kept(Flat(chunks[..i]), cap, kept, truncated)
    {
      FlatSplits(chunks, i);
      KeptMore(Flat(chunks[..i]), chunks[i], cap, kept, truncated);
      var keep := Keep(input[i].bytes, kept, cap);
      kept, truncated := keep.0, truncated || !keep.1;
      i := i + 1;
    }
    assert chunks[..i] == chunks;
  }
}
