/**
 * Locale negotiation of the instance-based `Lezer`: the candidate array
 * built by `detectLanguageEnv`, the language codes that
 * `detectLanguageFiles` reads from catalog file names, and
 * `availableLanguage`, which picks the first code that has a file and is
 * also a candidate, and forces it.
 *
 * The request state (`$_GET`, `$_SESSION`, `$_COOKIE`) becomes a `Request`
 * value and the directory scan a sequence of file names.
 */
module Negotiation {
  import opened Wrappers
  import opened Text

  // ---------------------------------------------------------------------------
  // Candidate sources and PHP's ordered array with string keys
  // ---------------------------------------------------------------------------

  /** The keys of the candidate array: 'forced', 'get', 'session', 'cookie', 'fallback'. */
  datatype Source = Forced | Get | Session | Cookie | Fallback

  /** Priority of a source; a smaller rank is a higher priority. */
  function Rank(k: Source): nat
  {
    match k
    case Forced => 0
    case Get => 1
    case Session => 2
    case Cookie => 3
    case Fallback => 4
  }

  /** One element of an array keyed by source. */
  datatype Entry = Entry(key: Source, value: string)

  /** The `lang` entry of `$_GET`, `$_SESSION` and `$_COOKIE`: `Some` when it is set and is a string. */
  datatype Request = Request(get: Option<string>, session: Option<string>, cookie: Option<string>)

  function Values(s: seq<Entry>): (r: seq<string>)
    ensures |r| == |s| && forall i :: 0 <= i < |s| ==> r[i] == s[i].value
  {
    seq(|s|, i requires 0 <= i < |s| => s[i].value)
  }

  function KeysOf(s: seq<Entry>): (r: seq<Source>)
    ensures |r| == |s| && forall i :: 0 <= i < |s| ==> r[i] == s[i].key
  {
    seq(|s|, i requires 0 <= i < |s| => s[i].key)
  }

  /** Keys strictly increase in rank along the array. */
  predicate Ranked(s: seq<Entry>)
  {
    forall i, j :: 0 <= i < j < |s| ==> Rank(s[i].key) < Rank(s[j].key)
  }

  /** No key occurs twice, as in every PHP array. */
  predicate DistinctKeys(s: seq<Entry>)
  {
    forall i, j :: 0 <= i < j < |s| ==> s[i].key != s[j].key
  }

  /** `a` is `b` with some elements left out, the rest kept in order. */
  predicate Subseq<T(==)>(a: seq<T>, b: seq<T>)
    decreases |b|
  {
    if a == [] then true
    else if b == [] then false
    else (a[|a| - 1] == b[|b| - 1] && Subseq(a[..|a| - 1], b[..|b| - 1])) || Subseq(a, b[..|b| - 1])
  }

  lemma {:induction false} SubseqIn<T>(a: seq<T>, b: seq<T>)
    requires Subseq(a, b)
    ensures forall x :: x in a ==> x in b
    decreases |b|
  {
    if a != [] {
      if a[|a| - 1] == b[|b| - 1] && Subseq(a[..|a| - 1], b[..|b| - 1]) {
        SubseqIn(a[..|a| - 1], b[..|b| - 1]);
        assert a == a[..|a| - 1] + [a[|a| - 1]];
        assert b == b[..|b| - 1] + [b[|b| - 1]];
      } else {
        SubseqIn(a, b[..|b| - 1]);
        assert b == b[..|b| - 1] + [b[|b| - 1]];
      }
    }
  }

  lemma RankedOrder(s: seq<Entry>, i: nat, j: nat)
    requires Ranked(s) && i < |s| && j < |s|
    requires Rank(s[i].key) < Rank(s[j].key)
    ensures i < j
  {
  }

  /** Leaving elements out of a ranked array keeps it ranked. */
  lemma {:induction false} SubseqRanked(a: seq<Entry>, b: seq<Entry>)
    requires Subseq(a, b) && Ranked(b)
    ensures Ranked(a)
    decreases |b|
  {
    if a != [] {
      var b' := b[..|b| - 1];
      if a[|a| - 1] == b[|b| - 1] && Subseq(a[..|a| - 1], b') {
        var a' := a[..|a| - 1];
        SubseqRanked(a', b');
        SubseqIn(a', b');
        forall i, j | 0 <= i < j < |a| ensures Rank(a[i].key) < Rank(a[j].key) {
          if j == |a| - 1 {
            assert a[i] in a';
            var k :| 0 <= k < |b'| && b'[k] == a[i];
            assert b[k] == a[i];
          } else {
            assert a[i] == a'[i] && a[j] == a'[j];
          }
        }
      } else {
        SubseqRanked(a, b');
      }
    }
  }

  // ---------------------------------------------------------------------------
  // detectLanguageEnv: building, deduplicating and filtering the candidates
  // ---------------------------------------------------------------------------

  /**
   * What each source offers: the forced language when it is not loosely equal
   * to null (so not the empty string), the three request values when present,
   * and the fallback language always.
   */
  function Offer(forced: Option<string>, req: Request, fallback: string, k: Source): Option<string>
  {
    match k
    case Forced => if forced.Some? && forced.value != "" then forced else None
    case Get => req.get
    case Session => req.session
    case Cookie => req.cookie
    case Fallback => Some(fallback)
  }

  /** The array `$userLangs` before `array_unique`. */
  function Candidates(forced: Option<string>, req: Request, fallback: string): seq<Entry>
  {
    (if forced.Some? && forced.value != "" then [Entry(Forced, forced.value)] else [])
    + (if req.get.Some? then [Entry(Get, req.get.value)] else [])
    + (if req.session.Some? then [Entry(Session, req.session.value)] else [])
    + (if req.cookie.Some? then [Entry(Cookie, req.cookie.value)] else [])
    + [Entry(Fallback, fallback)]
  }

  /**
   * The candidates hold exactly what the sources offer, in the order forced,
   * get, session, cookie, fallback, and end with the fallback language.
   */
  lemma CandidatesShape(forced: Option<string>, req: Request, fallback: string)
    ensures var c := Candidates(forced, req, fallback);
      && c != [] && c[|c| - 1] == Entry(Fallback, fallback)
      && Ranked(c)
      && forall e :: e in c <==> Offer(forced, req, fallback, e.key) == Some(e.value)
  {
    var c := Candidates(forced, req, fallback);
    CandidatesRanked(forced, req, fallback);
    forall e ensures e in c <==> Offer(forced, req, fallback, e.key) == Some(e.value) {
      CandidatesMember(forced, req, fallback, e);
    }
  }

  lemma CandidatesRanked(forced: Option<string>, req: Request, fallback: string)
    ensures Ranked(Candidates(forced, req, fallback))
  {
    var p0 := if forced.Some? && forced.value != "" then [Entry(Forced, forced.value)] else [];
    var p1 := if req.get.Some? then [Entry(Get, req.get.value)] else [];
    var p2 := if req.session.Some? then [Entry(Session, req.session.value)] else [];
    var p3 := if req.cookie.Some? then [Entry(Cookie, req.cookie.value)] else [];
    var p4 := [Entry(Fallback, fallback)];
    var q0 := p0;
    assert Ranked(q0) && RanksBelow(q0, 1) by {
      RankedJoin([], p0, 0);
      assert [] + p0 == p0;
    }
    var q1 := q0 + p1;
    assert Ranked(q1) && RanksBelow(q1, 2) by { RankedJoin(q0, p1, 1); }
    var q2 := q1 + p2;
    assert Ranked(q2) && RanksBelow(q2, 3) by { RankedJoin(q1, p2, 2); }
    var q3 := q2 + p3;
    assert Ranked(q3) && RanksBelow(q3, 4) by { RankedJoin(q2, p3, 3); }
    RankedJoin(q3, p4, 4);
    assert Candidates(forced, req, fallback) == q3 + p4;
  }

  lemma CandidatesMember(forced: Option<string>, req: Request, fallback: string, e: Entry)
    ensures e in Candidates(forced, req, fallback) <==> Offer(forced, req, fallback, e.key) == Some(e.value)
  {
    var p0 := if forced.Some? && forced.value != "" then [Entry(Forced, forced.value)] else [];
    var p1 := if req.get.Some? then [Entry(Get, req.get.value)] else [];
    var p2 := if req.session.Some? then [Entry(Session, req.session.value)] else [];
    var p3 := if req.cookie.Some? then [Entry(Cookie, req.cookie.value)] else [];
    var p4 := [Entry(Fallback, fallback)];
    var c := Candidates(forced, req, fallback);
    assert c == p0 + p1 + p2 + p3 + p4;
    assert e in c <==> e in p0 || e in p1 || e in p2 || e in p3 || e in p4;
    match e.key
    case Forced => assert e !in p1 && e !in p2 && e !in p3 && e !in p4;
    case Get => assert e !in p0 && e !in p2 && e !in p3 && e !in p4;
    case Session => assert e !in p0 && e !in p1 && e !in p3 && e !in p4;
    case Cookie => assert e !in p0 && e !in p1 && e !in p2 && e !in p4;
    case Fallback => assert e !in p0 && e !in p1 && e !in p2 && e !in p3;
  }

  /** Every entry of `s` has a rank below `r`. */
  predicate RanksBelow(s: seq<Entry>, r: nat)
  {
    forall y :: y in s ==> Rank(y.key) < r
  }

  /** Appending at most one entry of rank `r` after entries of lower rank keeps an array ranked. */
  lemma RankedJoin(s: seq<Entry>, x: seq<Entry>, r: nat)
    requires Ranked(s) && |x| <= 1 && RanksBelow(s, r)
    requires forall y :: y in x ==> Rank(y.key) == r
    ensures Ranked(s + x) && RanksBelow(s + x, r + 1)
  {
    var t := s + x;
    forall i, j | 0 <= i < j < |t| ensures Rank(t[i].key) < Rank(t[j].key) {
      if j < |s| {
        assert t[i] == s[i] && t[j] == s[j];
      } else {
        assert t[i] == s[i] && t[i] in s;
        assert t[j] == x[0] && x[0] in x;
      }
    }
  }

  /** The position of the first entry whose value is `v`. */
  function FirstIndex(s: seq<Entry>, v: string): (i: nat)
    requires v in Values(s)
    ensures i < |s| && s[i].value == v
    ensures forall k :: 0 <= k < i ==> s[k].value != v
    decreases |s|
  {
    if s[0].value == v then 0
    else
      assert v in Values(s[1..]) by {
        var j :| 0 <= j < |s| && Values(s)[j] == v;
        assert j > 0 && Values(s[1..])[j - 1] == v;
      }
      1 + FirstIndex(s[1..], v)
  }

  lemma FirstIndexAppend(s: seq<Entry>, e: Entry, v: string)
    requires v in Values(s)
    ensures v in Values(s + [e]) && FirstIndex(s + [e], v) == FirstIndex(s, v)
  {
    var t := s + [e];
    var i := FirstIndex(s, v);
    assert Values(t)[i] == v;
    var j := FirstIndex(t, v);
    assert t[i] == s[i];
    assert j <= i;
    assert t[j] == s[j];
  }

  /**
   * PHP's `array_unique`: keeps the first entry of each value and drops later
   * entries with a value already seen, preserving keys and order.
   */
  function Unique(s: seq<Entry>): seq<Entry>
    decreases |s|
  {
    if s == [] then []
    else
      var init := s[..|s| - 1];
      var last := s[|s| - 1];
      if last.value in Values(init) then Unique(init) else Unique(init) + [last]
  }

  /** `array_unique` keeps an order-preserving subsequence. */
  lemma {:induction false} UniqueSubseq(s: seq<Entry>)
    ensures Subseq(Unique(s), s)
    decreases |s|
  {
    if s != [] {
      var init := s[..|s| - 1];
      var last := s[|s| - 1];
      var u := Unique(init);
      UniqueSubseq(init);
      assert s[..|s| - 1] == init;
      if last.value !in Values(init) {
        assert (u + [last])[..|u|] == u;
      }
    }
  }


  /** No value survives `array_unique` twice. */
  lemma {:induction false} UniqueDistinct(s: seq<Entry>)
    ensures forall i, j :: 0 <= i < j < |Unique(s)| ==> Unique(s)[i].value != Unique(s)[j].value
    decreases |s|
  {
    if s != [] {
      var init := s[..|s| - 1];
      var last := s[|s| - 1];
      var u := Unique(init);
      UniqueDistinct(init);
      if last.value !in Values(init) {
        var r := u + [last];
        UniqueSubseq(init);
        SubseqIn(u, init);
        forall i | 0 <= i < |u| ensures u[i].value != last.value {
          assert u[i] in init;
          var k :| 0 <= k < |init| && init[k] == u[i];
          assert Values(init)[k] == u[i].value;
        }
        assert Unique(s) == r;
      }
    }
  }

  /** Every value of the input survives `array_unique`. */
  lemma {:induction false} UniqueKeepsValues(s: seq<Entry>)
    ensures forall i :: 0 <= i < |s| ==> s[i].value in Values(Unique(s))
    decreases |s|
  {
    if s != [] {
      var init := s[..|s| - 1];
      var last := s[|s| - 1];
      var u := Unique(init);
      UniqueKeepsValues(init);
      forall i | 0 <= i < |s| ensures s[i].value in Values(Unique(s)) {
        if i < |init| {
          assert s[i] == init[i];
          var k :| 0 <= k < |u| && Values(u)[k] == s[i].value;
          assert Unique(s)[k] == u[k];
        } else if last.value in Values(init) {
          var k :| 0 <= k < |init| && Values(init)[k] == last.value;
          var m :| 0 <= m < |u| && Values(u)[m] == init[k].value;
        } else {
          assert Unique(s) == u + [last];
          assert Values(Unique(s))[|u|] == last.value;
        }
      }
    }
  }

  /** The entry that survives for a value is the first entry with that value. */
  lemma {:induction false} UniqueKeepsFirst(s: seq<Entry>)
    ensures forall e :: e in Unique(s) ==> e.value in Values(s) && e == s[FirstIndex(s, e.value)]
    decreases |s|
  {
    if s != [] {
      var init := s[..|s| - 1];
      var last := s[|s| - 1];
      var u := Unique(init);
      assert s == init + [last];
      UniqueKeepsFirst(init);
      forall e | e in Unique(s) ensures e.value in Values(s) && e == s[FirstIndex(s, e.value)] {
        if e in u {
          FirstIndexAppend(init, last, e.value);
        } else {
          assert e == last && last.value !in Values(init);
          assert Values(s)[|s| - 1] == last.value;
          forall k | 0 <= k < |init| ensures s[k].value != last.value {
            assert Values(init)[k] == s[k].value;
          }
        }
      }
    }
  }

  /** A locale name made only of ASCII letters, digits, `_` and `-`; the empty name is allowed. */
  predicate Legal(v: string)
  {
    forall i :: 0 <= i < |v| ==> LegalChar(v[i])
  }

  predicate LegalChar(c: char)
  {
    ('a' <= c <= 'z') || ('A' <= c <= 'Z') || ('0' <= c <= '9') || c == '_' || c == '-'
  }

  /**
   * `preg_match('/^[a-zA-Z0-9_-]*$/', $value) === 1` as PCRE evaluates it:
   * `$` without the D modifier also matches before a final newline.
   */
  predicate LegalAsWritten(v: string)
  {
    DollarAnchored(v, Legal)
  }

  /** The pattern as written lets a value with a trailing newline through. */
  lemma NewlineSlipsThrough()
    ensures LegalAsWritten("en\n") && !Legal("en\n")
  {
    assert "en\n"[..2] == "en";
    assert !LegalChar("en\n"[2]);
  }

  /** Legal names contain no newline, so storing only legal names keeps line breaks out of paths and headers. */
  lemma LegalHasNoNewline(v: string)
    requires Legal(v)
    ensures '\n' !in v
  {
    forall i | 0 <= i < |v| ensures v[i] != '\n' {
      assert LegalChar(v[i]);
    }
  }

  /**
   * The entries whose value the legality pattern accepts, in order, with `$`
   * read as PCRE reads it: a legal name, optionally followed by one newline.
   */
  function KeepLegal(s: seq<Entry>): seq<Entry>
    decreases |s|
  {
    if s == [] then []
    else
      var init := s[..|s| - 1];
      var last := s[|s| - 1];
      if LegalAsWritten(last.value) then KeepLegal(init) + [last] else KeepLegal(init)
  }

  /** The filter keeps, in order, exactly the entries whose value the pattern accepts. */
  lemma {:induction false} KeepLegalSpec(s: seq<Entry>)
    ensures Subseq(KeepLegal(s), s)
    ensures forall e :: e in KeepLegal(s) <==> e in s && LegalAsWritten(e.value)
    decreases |s|
  {
    if s != [] {
      var init := s[..|s| - 1];
      var last := s[|s| - 1];
      var k := KeepLegal(init);
      KeepLegalSpec(init);
      assert s == init + [last];
      if LegalAsWritten(last.value) {
        assert (k + [last])[..|k|] == k;
      }
    }
  }

  /**
   * The filter as intended: the pattern anchored at the true end of the
   * value (PCRE's D modifier, or `\z`), so only legal names pass.
   */
  function KeepStrict(s: seq<Entry>): seq<Entry>
    decreases |s|
  {
    if s == [] then []
    else
      var init := s[..|s| - 1];
      var last := s[|s| - 1];
      if Legal(last.value) then KeepStrict(init) + [last] else KeepStrict(init)
  }

  /** The intended filter keeps, in order, exactly the legal entries, and no kept value holds a newline. */
  lemma {:induction false} KeepStrictSpec(s: seq<Entry>)
    ensures Subseq(KeepStrict(s), s)
    ensures forall e :: e in KeepStrict(s) <==> e in s && Legal(e.value)
    ensures forall e :: e in KeepStrict(s) ==> '\n' !in e.value
    decreases |s|
  {
    if s != [] {
      var init := s[..|s| - 1];
      var last := s[|s| - 1];
      var k := KeepStrict(init);
      KeepStrictSpec(init);
      assert s == init + [last];
      if Legal(last.value) {
        assert (k + [last])[..|k|] == k;
        LegalHasNoNewline(last.value);
      }
    }
  }


  /** The entries `detectLanguageEnv` writes: survivors of `array_unique` that the pattern accepts, in priority order. */
  function EnvCandidates(forced: Option<string>, req: Request, fallback: string): seq<Entry>
  {
    KeepLegal(Unique(Candidates(forced, req, fallback)))
  }

  lemma EnvCandidatesRanked(forced: Option<string>, req: Request, fallback: string)
    ensures Ranked(EnvCandidates(forced, req, fallback))
    ensures DistinctKeys(EnvCandidates(forced, req, fallback))
  {
    var c := Candidates(forced, req, fallback);
    var u := Unique(c);
    CandidatesShape(forced, req, fallback);
    UniqueSubseq(c);
    KeepLegalSpec(u);
    SubseqRanked(u, c);
    SubseqRanked(KeepLegal(u), u);
  }

  /** In a ranked array, what survives `array_unique` is the highest-priority entry carrying its value. */
  lemma UniqueKeepsHighest(c: seq<Entry>, e: Entry)
    requires Ranked(c) && e in Unique(c)
    ensures e in c
    ensures forall x :: x in c && x.value == e.value ==> Rank(e.key) <= Rank(x.key)
  {
    var u := Unique(c);
    UniqueSubseq(c);
    SubseqIn(u, c);
    UniqueKeepsFirst(c);
    var f := FirstIndex(c, e.value);
    assert c[f] == e;
    forall x | x in c && x.value == e.value ensures Rank(e.key) <= Rank(x.key) {
      var g :| 0 <= g < |c| && c[g] == x;
      if Rank(x.key) < Rank(e.key) {
        RankedOrder(c, g, f);
      }
    }
  }

  /** A written entry is offered by its source, accepted by the pattern, and offered by no source of higher priority. */
  lemma EnvCandidatesSound(forced: Option<string>, req: Request, fallback: string, e: Entry)
    requires e in EnvCandidates(forced, req, fallback)
    ensures LegalAsWritten(e.value)
    ensures Offer(forced, req, fallback, e.key) == Some(e.value)
    ensures forall k :: Rank(k) < Rank(e.key) ==> Offer(forced, req, fallback, k) != Some(e.value)
  {
    var c := Candidates(forced, req, fallback);
    CandidatesShape(forced, req, fallback);
    KeepLegalSpec(Unique(c));
    UniqueKeepsHighest(c, e);
    forall k | Rank(k) < Rank(e.key) ensures Offer(forced, req, fallback, k) != Some(e.value) {
      assert Entry(k, e.value) !in c;
    }
  }

  /** In a ranked array, an entry whose value no higher-priority entry carries survives `array_unique`. */
  lemma UniqueKeepsUnrivalled(c: seq<Entry>, e: Entry)
    requires Ranked(c) && e in c
    requires forall x :: x in c && x.value == e.value ==> Rank(e.key) <= Rank(x.key)
    ensures e in Unique(c)
  {
    var j :| 0 <= j < |c| && c[j] == e;
    UniqueKeepsValues(c);
    var u := Unique(c);
    assert e.value in Values(u);
    var m :| 0 <= m < |u| && Values(u)[m] == e.value;
    var w := u[m];
    UniqueKeepsFirst(c);
    var f := FirstIndex(c, e.value);
    assert w == c[f] && f <= j;
    assert w in c;
    assert f == j;
    assert u[m] == e;
  }

  /** A value the pattern accepts, offered by a source and by no source of higher priority, is written. */
  lemma EnvCandidatesComplete(forced: Option<string>, req: Request, fallback: string, e: Entry)
    requires LegalAsWritten(e.value)
    requires Offer(forced, req, fallback, e.key) == Some(e.value)
    requires forall k :: Rank(k) < Rank(e.key) ==> Offer(forced, req, fallback, k) != Some(e.value)
    ensures e in EnvCandidates(forced, req, fallback)
  {
    var c := Candidates(forced, req, fallback);
    CandidatesShape(forced, req, fallback);
    forall x | x in c && x.value == e.value ensures Rank(e.key) <= Rank(x.key) {
      assert Offer(forced, req, fallback, x.key) == Some(e.value);
    }
    UniqueKeepsUnrivalled(c, e);
    KeepLegalSpec(Unique(c));
  }

  /**
   * The written entries, characterised source by source: a source's value is
   * written exactly when the source offers it, the pattern accepts it, and no
   * source of higher priority offers the same value.
   */
  lemma EnvCandidatesExactly(forced: Option<string>, req: Request, fallback: string, e: Entry)
    ensures e in EnvCandidates(forced, req, fallback) <==>
      && LegalAsWritten(e.value)
      && Offer(forced, req, fallback, e.key) == Some(e.value)
      && forall k :: Rank(k) < Rank(e.key) ==> Offer(forced, req, fallback, k) != Some(e.value)
  {
    if e in EnvCandidates(forced, req, fallback) {
      EnvCandidatesSound(forced, req, fallback, e);
    }
    if && LegalAsWritten(e.value)
       && Offer(forced, req, fallback, e.key) == Some(e.value)
       && forall k :: Rank(k) < Rank(e.key) ==> Offer(forced, req, fallback, k) != Some(e.value)
    {
      EnvCandidatesComplete(forced, req, fallback, e);
    }
  }

  /** The worked example: `lang` is `en` in the query and `fr` in the cookie; the fallback is `fra`. */
  lemma QueryCookieFallbackExample()
    ensures EnvCandidates(None, Request(Some("en"), None, Some("fr")), "fra")
      == [Entry(Get, "en"), Entry(Cookie, "fr"), Entry(Fallback, "fra")]
  {
    var c := Candidates(None, Request(Some("en"), None, Some("fr")), "fra");
    assert c == [Entry(Get, "en"), Entry(Cookie, "fr"), Entry(Fallback, "fra")];
    assert c[..2] == [Entry(Get, "en"), Entry(Cookie, "fr")];
    assert c[..1] == [Entry(Get, "en")];
    assert c[..1][..0] == [] && c[..2][..1] == c[..1] && c[..2] == c[..|c| - 1];
    assert Values(c[..1]) == ["en"] && Values(c[..2]) == ["en", "fr"];
    assert Unique(c[..1]) == c[..1];
    assert Unique(c[..2]) == c[..2];
    assert Unique(c) == c;
    assert LegalAsWritten("en") && LegalAsWritten("fr") && LegalAsWritten("fra");
    assert KeepLegal(c[..1]) == c[..1];
    assert KeepLegal(c[..2]) == c[..2];
  }

  // ---------------------------------------------------------------------------
  // Writing into detected_language_env
  // ---------------------------------------------------------------------------

  /** `$array[$key]`: the value stored under `k`, if any. */
  function ValueAt(m: seq<Entry>, k: Source): (r: Option<string>)
    ensures r.Some? ==> Entry(k, r.value) in m
    decreases |m|
  {
    if m == [] then None
    else if m[0].key == k then Some(m[0].value)
    else ValueAt(m[1..], k)
  }

  lemma {:induction false} ValueAtNone(m: seq<Entry>, k: Source)
    ensures ValueAt(m, k).None? <==> k !in KeysOf(m)
    decreases |m|
  {
    if m != [] {
      ValueAtNone(m[1..], k);
      assert KeysOf(m) == [m[0].key] + KeysOf(m[1..]);
    }
  }

  /**
   * `$array[$key] = $value`: overwrites the entry in place when the key is
   * present, appends otherwise.
   */
  function Assign(m: seq<Entry>, e: Entry): seq<Entry>
    decreases |m|
  {
    if m == [] then [e]
    else if m[0].key == e.key then [e] + m[1..]
    else [m[0]] + Assign(m[1..], e)
  }

  /** After `$array[$key] = $value` the key holds the value, every other key is unchanged, and nothing else appears. */
  lemma {:induction false} AssignSpec(m: seq<Entry>, e: Entry)
    ensures ValueAt(Assign(m, e), e.key) == Some(e.value)
    ensures forall k :: k != e.key ==> ValueAt(Assign(m, e), k) == ValueAt(m, k)
    ensures forall x :: x in Assign(m, e) ==> x in m || x == e
    decreases |m|
  {
    var r := Assign(m, e);
    if m != [] {
      if m[0].key == e.key {
        assert r[1..] == m[1..];
        forall x | x in r ensures x in m || x == e {
          if x != e {
            var j :| 0 <= j < |r| && r[j] == x;
            assert m[j] == x;
          }
        }
      } else {
        AssignSpec(m[1..], e);
        assert r[1..] == Assign(m[1..], e);
        forall x | x in r ensures x in m || x == e {
          if x != m[0] {
            assert x in r[1..];
          }
        }
      }
    }
  }

  /** Assigning to a present key overwrites it where it stands. */
  lemma {:induction false} AssignPresent(m: seq<Entry>, e: Entry)
    requires e.key in KeysOf(m)
    ensures |Assign(m, e)| == |m|
    ensures forall i :: 0 <= i < |m| ==> Assign(m, e)[i].key == m[i].key
    decreases |m|
  {
    var r := Assign(m, e);
    if m[0].key == e.key {
      assert r == [e] + m[1..];
      forall i | 0 <= i < |m| ensures r[i].key == m[i].key {
        if i > 0 {
          assert r[i] == m[i];
        }
      }
    } else {
      var j :| 0 <= j < |m| && KeysOf(m)[j] == e.key;
      assert KeysOf(m[1..])[j - 1] == e.key;
      var t := Assign(m[1..], e);
      AssignPresent(m[1..], e);
      assert r == [m[0]] + t;
      forall i | 0 <= i < |m| ensures r[i].key == m[i].key {
        if i > 0 {
          assert r[i] == t[i - 1] && m[i] == m[1..][i - 1];
        }
      }
    }
  }

  /** Assigning to a new key appends the entry. */
  lemma {:induction false} AssignAbsent(m: seq<Entry>, e: Entry)
    requires e.key !in KeysOf(m)
    ensures Assign(m, e) == m + [e]
    decreases |m|
  {
    if m != [] {
      assert KeysOf(m)[0] == m[0].key;
      forall k | k in KeysOf(m[1..]) ensures k in KeysOf(m) {
        var j :| 0 <= j < |m| - 1 && KeysOf(m[1..])[j] == k;
        assert KeysOf(m)[j + 1] == k;
      }
      AssignAbsent(m[1..], e);
      assert [m[0]] + (m[1..] + [e]) == m + [e];
    }
  }

  lemma AssignDistinct(m: seq<Entry>, e: Entry)
    requires DistinctKeys(m)
    ensures DistinctKeys(Assign(m, e))
  {
    if e.key in KeysOf(m) {
      AssignPresent(m, e);
    } else {
      AssignAbsent(m, e);
      forall i | 0 <= i < |m| ensures m[i].key != e.key {
        assert KeysOf(m)[i] == m[i].key;
      }
    }
  }

  /** The `foreach` of `detectLanguageEnv`: each entry assigned in turn. */
  function StoreAll(m: seq<Entry>, es: seq<Entry>): seq<Entry>
    decreases |es|
  {
    if es == [] then m
    else Assign(StoreAll(m, es[..|es| - 1]), es[|es| - 1])
  }

  /** The loop writes only entries it was given, and keys it was not given keep their values. */
  lemma {:induction false} StoreAllSpec(m: seq<Entry>, es: seq<Entry>)
    ensures forall x :: x in StoreAll(m, es) ==> x in m || x in es
    ensures forall k :: k !in KeysOf(es) ==> ValueAt(StoreAll(m, es), k) == ValueAt(m, k)
    decreases |es|
  {
    if es != [] {
      var init := es[..|es| - 1];
      var last := es[|es| - 1];
      StoreAllSpec(m, init);
      AssignSpec(StoreAll(m, init), last);
      assert forall x :: x in init ==> x in es;
      assert KeysOf(es) == KeysOf(init) + [last.key];
    }
  }

  lemma {:induction false} StoreAllDistinct(m: seq<Entry>, es: seq<Entry>)
    requires DistinctKeys(m)
    ensures DistinctKeys(StoreAll(m, es))
    decreases |es|
  {
    if es != [] {
      StoreAllDistinct(m, es[..|es| - 1]);
      AssignDistinct(StoreAll(m, es[..|es| - 1]), es[|es| - 1]);
    }
  }

  lemma StoreAllSnoc(m: seq<Entry>, es: seq<Entry>, x: Entry)
    ensures StoreAll(m, es + [x]) == Assign(StoreAll(m, es), x)
  {
    assert (es + [x])[..|es|] == es;
  }

  lemma KeepLegalStep(s: seq<Entry>, i: nat)
    requires i < |s|
    ensures KeepLegal(s[..i + 1]) == KeepLegal(s[..i]) + (if LegalAsWritten(s[i].value) then [s[i]] else [])
  {
    assert s[..i + 1][..i] == s[..i];
  }

  /** After the loop, every entry written can be read back under its key. */
  lemma {:induction false} StoreAllWrites(m: seq<Entry>, es: seq<Entry>)
    requires DistinctKeys(es)
    ensures forall e :: e in es ==> ValueAt(StoreAll(m, es), e.key) == Some(e.value)
    decreases |es|
  {
    if es != [] {
      var init := es[..|es| - 1];
      var last := es[|es| - 1];
      var r0 := StoreAll(m, init);
      assert DistinctKeys(init) by {
        forall i, j | 0 <= i < j < |init| ensures init[i].key != init[j].key {
          assert init[i] == es[i] && init[j] == es[j];
        }
      }
      StoreAllWrites(m, init);
      AssignSpec(r0, last);
      assert StoreAll(m, es) == Assign(r0, last);
      forall e | e in es ensures ValueAt(Assign(r0, last), e.key) == Some(e.value) {
        if e != last {
          var i :| 0 <= i < |es| && es[i] == e;
          assert i < |es| - 1 && init[i] == e;
          assert e.key != last.key;
        }
      }
    }
  }


  /** Into an empty array, the loop writes the entries as they come. */
  lemma {:induction false} StoreAllFresh(es: seq<Entry>)
    requires DistinctKeys(es)
    ensures StoreAll([], es) == es
    decreases |es|
  {
    if es != [] {
      var init := es[..|es| - 1];
      var last := es[|es| - 1];
      StoreAllFresh(init);
      forall i | 0 <= i < |init| ensures KeysOf(init)[i] != last.key {
        assert es[i] == init[i];
      }
      AssignAbsent(init, last);
      assert es == init + [last];
    }
  }

  // ---------------------------------------------------------------------------
  // detectLanguageFiles and availableLanguage
  // ---------------------------------------------------------------------------

  predicate IsLower(c: char) { 'a' <= c <= 'z' }

  /** Three lower-case ASCII letters: what `[a-z]{3}` captures. */
  predicate IsCode(s: string) { |s| == 3 && IsLower(s[0]) && IsLower(s[1]) && IsLower(s[2]) }

  /** `implode('', $names)`. */
  function Concat(names: seq<string>): string
    decreases |names|
  {
    if names == [] then "" else names[0] + Concat(names[1..])
  }

  /** `/([a-z]{3})\.json/` matches at the start of `s`. */
  predicate CodeAt(s: string)
  {
    && |s| >= 8
    && IsLower(s[0]) && IsLower(s[1]) && IsLower(s[2])
    && s[3] == '.' && s[4] == 'j' && s[5] == 's' && s[6] == 'o' && s[7] == 'n'
  }

  /**
   * `preg_match_all('/([a-z]{3})\.json/', $s, $m)` and its group `$m[1]`:
   * matches are taken from left to right, and the scan resumes after the end
   * of each match, so they never overlap.
   */
  function ExtractCodes(s: string): (r: seq<string>)
    ensures forall c :: c in r ==> IsCode(c)
    ensures |r| * 8 <= |s|
    decreases |s|
  {
    if |s| < 8 then []
    else if CodeAt(s) then [s[..3]] + ExtractCodes(s[8..])
    else ExtractCodes(s[1..])
  }

  /** The catalog file name of a language code. */
  function FileNames(codes: seq<string>): (r: seq<string>)
    ensures |r| == |codes| && forall i :: 0 <= i < |codes| ==> r[i] == codes[i] + ".json"
  {
    seq(|codes|, i requires 0 <= i < |codes| => codes[i] + ".json")
  }

  /** Reading the codes back from the concatenated names `xyz.json` gives exactly those codes, in scan order. */
  lemma {:induction false} ExtractFileNames(codes: seq<string>)
    requires forall c :: c in codes ==> IsCode(c)
    ensures ExtractCodes(Concat(FileNames(codes))) == codes
    decreases |codes|
  {
    if codes != [] {
      var names := FileNames(codes);
      var s := Concat(names);
      assert names[1..] == FileNames(codes[1..]);
      ExtractFileNames(codes[1..]);
      assert codes[0] in codes;
      assert s == codes[0] + ".json" + Concat(names[1..]);
      ScanMatch(codes[0], Concat(names[1..]));
    }
  }

  /**
   * Concatenating the names before matching invents codes: the two-letter
   * files `xy.json` and `zw.json` read as the single code `nzw` (so `fr.json`
   * and `en.json` give `nen`), and neither `xy` nor `zw` is found.
   */
  lemma ConcatenationInventsCode(x: string, y: string)
    requires |x| == 2 && IsLower(x[0]) && IsLower(x[1])
    requires |y| == 2 && IsLower(y[0]) && IsLower(y[1])
    ensures ExtractCodes(Concat([x + ".json", y + ".json"])) == [['n'] + y]
  {
    var s := x + ".json" + (y + ".json");
    assert Concat([x + ".json", y + ".json"]) == s by {
      assert [x + ".json", y + ".json"][1..] == [y + ".json"];
      assert [y + ".json"][1..] == [];
      assert Concat([y + ".json"]) == y + ".json" + "";
      assert y + ".json" + "" == y + ".json";
      assert Concat([x + ".json", y + ".json"]) == x + ".json" + Concat([y + ".json"]);
    }
    assert s[6..] == ['n'] + y + ".json" + "";
    ScanMatch(['n'] + y, "");
    SkipAt(s, 5);
    SkipAt(s, 4);
    SkipAt(s, 3);
    SkipAt(s, 2);
    SkipAt(s, 1);
    SkipAt(s, 0);
  }

  lemma SkipAt(s: string, k: nat)
    requires k + 8 <= |s|
    requires !IsLower(s[k]) || !IsLower(s[k + 1]) || !IsLower(s[k + 2]) || s[k + 3] != '.'
    ensures ExtractCodes(s[k..]) == ExtractCodes(s[k + 1..])
  {
    assert s[k..] == [s[k]] + s[k + 1..];
    ScanSkip(s[k], s[k + 1..]);
  }

  /** A code followed by `.json` is matched, and the scan resumes after it. */
  lemma ScanMatch(c: string, rest: string)
    requires IsCode(c)
    ensures ExtractCodes(c + ".json" + rest) == [c] + ExtractCodes(rest)
  {
    var s := c + ".json" + rest;
    assert s[..3] == c && s[8..] == rest;
    assert s[3] == '.' && s[4] == 'j' && s[5] == 's' && s[6] == 'o' && s[7] == 'n';
  }

  /** Where no match starts, the scan moves on by one character. */
  lemma ScanSkip(x: char, rest: string)
    requires |rest| >= 7
    requires !IsLower(x) || !IsLower(rest[0]) || !IsLower(rest[1]) || rest[2] != '.'
    ensures ExtractCodes([x] + rest) == ExtractCodes(rest)
  {
    var s := [x] + rest;
    assert s[1..] == rest;
    assert s[0] == x && s[1] == rest[0] && s[2] == rest[1] && s[3] == rest[2];
    assert !CodeAt(s);
  }

  /** The value of `detected_language_files` after `detectLanguageFiles` scanned `names`. */
  function FilesAfter(old_files: seq<string>, names: seq<string>): seq<string>
  {
    if names == [] then old_files
    else
      var codes := ExtractCodes(Concat(names));
      if codes == [] then old_files else codes
  }

  /** What `detectLanguageFiles` returns. */
  function FilesReturned(old_files: seq<string>, names: seq<string>): seq<string>
  {
    if names == [] then [] else FilesAfter(old_files, names)
  }

  /** Scanning a directory of `code.json` catalogs replaces the cache with those codes, in order, and returns them. */
  lemma FilesOfCodeNames(old_files: seq<string>, codes: seq<string>)
    requires codes != [] && forall c :: c in codes ==> IsCode(c)
    ensures FilesAfter(old_files, FileNames(codes)) == codes
    ensures FilesReturned(old_files, FileNames(codes)) == codes
  {
    ExtractFileNames(codes);
  }

  /** The position of the first file code that is a candidate value, or `|files|` when there is none. */
  function CommonIndex(files: seq<string>, values: seq<string>): (i: nat)
    ensures i <= |files|
    ensures i < |files| ==> files[i] in values
    ensures forall k :: 0 <= k < i ==> files[k] !in values
    decreases |files|
  {
    if files == [] || files[0] in values then 0 else 1 + CommonIndex(files[1..], values)
  }

  /**
   * `current(array_intersect($files, $values))`: the first file code, in scan
   * order, that is also a candidate value; `None` stands for PHP's `false`.
   */
  function FirstCommon(files: seq<string>, values: seq<string>): (r: Option<string>)
    ensures r.None? <==> forall c :: c in files ==> c !in values
    ensures r.Some? ==> r.value in files && r.value in values
    ensures r.Some? ==>
      exists i :: 0 <= i < |files| && files[i] == r.value && forall k :: 0 <= k < i ==> files[k] !in values
  {
    var i := CommonIndex(files, values);
    if i < |files| then Some(files[i]) else None
  }

  /** One turn of the `foreach` of `detectLanguageEnv`: an accepted entry is assigned, any other skipped. */
  lemma StoreStep(m: seq<Entry>, s: seq<Entry>, i: nat)
    requires i < |s|
    ensures LegalAsWritten(s[i].value) ==>
      StoreAll(m, KeepLegal(s[..i + 1])) == Assign(StoreAll(m, KeepLegal(s[..i])), s[i])
    ensures !LegalAsWritten(s[i].value) ==>
      StoreAll(m, KeepLegal(s[..i + 1])) == StoreAll(m, KeepLegal(s[..i]))
  {
    var done := KeepLegal(s[..i]);
    KeepLegalStep(s, i);
    if LegalAsWritten(s[i].value) {
      assert KeepLegal(s[..i + 1]) == done + [s[i]];
      StoreAllSnoc(m, done, s[i]);
    } else {
      assert KeepLegal(s[..i + 1]) == done;
    }
  }

  /** What storing the written entries does to an array with distinct keys and accepted values. */
  lemma EnvStored(m: seq<Entry>, forced: Option<string>, req: Request, fallback: string)
    requires DistinctKeys(m) && forall e :: e in m ==> LegalAsWritten(e.value)
    ensures var es := EnvCandidates(forced, req, fallback);
      var r := StoreAll(m, es);
      && DistinctKeys(r)
      && (forall e :: e in r ==> LegalAsWritten(e.value))
      && (forall e :: e in es ==> ValueAt(r, e.key) == Some(e.value))
      && (forall k :: k !in KeysOf(es) ==> ValueAt(r, k) == ValueAt(m, k))
  {
    var es := EnvCandidates(forced, req, fallback);
    KeepLegalSpec(Unique(Candidates(forced, req, fallback)));
    StoreAllSpec(m, es);
    EnvCandidatesRanked(forced, req, fallback);
    StoreAllWrites(m, es);
    StoreAllDistinct(m, es);
  }

  /**
   * The pattern as written at work: a query value made of a legal name and
   * one trailing newline is written under `get`, and it replaces whatever an
   * earlier call had stored there.
   */
  lemma NewlineValueWritten(m: seq<Entry>, v: string, req: Request, fallback: string)
    requires Legal(v) && req.get == Some(v + "\n")
    ensures Entry(Get, v + "\n") in EnvCandidates(None, req, fallback)
    ensures ValueAt(StoreAll(m, EnvCandidates(None, req, fallback)), Get) == Some(v + "\n")
  {
    var w := v + "\n";
    assert w[..|w| - 1] == v;
    assert LegalAsWritten(w);
    assert Offer(None, req, fallback, Get) == Some(w);
    forall k | Rank(k) < Rank(Get) ensures Offer(None, req, fallback, k) != Some(w) {
      assert k == Forced;
    }
    EnvCandidatesComplete(None, req, fallback, Entry(Get, w));
    EnvCandidatesRanked(None, req, fallback);
    StoreAllWrites(m, EnvCandidates(None, req, fallback));
  }

  // ---------------------------------------------------------------------------
  // The class
  // ---------------------------------------------------------------------------

  /** PHP truthiness of a string: everything but `""` and `"0"`. */
  predicate Truthy(s: string) { s != "" && s != "0" }

  class Lezer {
    /** Inherited: the language set by `setForcedLang`; `None` is `null`. */
    var forcedLang: Option<string>
    /** Inherited: the language used when nothing else applies. */
    var fallbackLang: string
    var detectedLanguageFiles: seq<string>
    var detectedLanguageEnv: seq<Entry>

    /** The array keeps distinct keys and values the pattern accepts; the file list holds only codes. */
    ghost predicate Valid()
      reads this
    {
      && DistinctKeys(detectedLanguageEnv)
      && (forall e :: e in detectedLanguageEnv ==> LegalAsWritten(e.value))
      && (forall c :: c in detectedLanguageFiles ==> IsCode(c))
    }

    constructor (fallback: string)
      ensures Valid()
      ensures forcedLang == None && fallbackLang == fallback
      ensures detectedLanguageFiles == [] && detectedLanguageEnv == []
    {
      forcedLang := None;
      fallbackLang := fallback;
      detectedLanguageFiles := [];
      detectedLanguageEnv := [];
    }

    /**
     * `detectLanguageEnv`: builds the candidates in priority order, removes
     * duplicate values, then writes each survivor the pattern accepts into
     * `detected_language_env` under its key and returns the whole array.
     * Keys written by earlier calls and not written now keep their values.
     */
    method DetectLanguageEnv(req: Request) returns (env: seq<Entry>)
      requires Valid()
      modifies this`detectedLanguageEnv
      ensures Valid()
      ensures detectedLanguageEnv == StoreAll(old(detectedLanguageEnv), EnvCandidates(forcedLang, req, fallbackLang))
      ensures env == detectedLanguageEnv
      ensures forall e :: e in EnvCandidates(forcedLang, req, fallbackLang) ==> ValueAt(env, e.key) == Some(e.value)
      ensures forall k :: k !in KeysOf(EnvCandidates(forcedLang, req, fallbackLang)) ==>
        ValueAt(env, k) == ValueAt(old(detectedLanguageEnv), k)
    {
      var userLangs := Candidates(forcedLang, req, fallbackLang);
      userLangs := Unique(userLangs);

      ghost var before := detectedLanguageEnv;
      var i := 0;
      assert userLangs[..0] == [];
      while i < |userLangs|
        invariant 0 <= i <= |userLangs|
        invariant detectedLanguageEnv == StoreAll(before, KeepLegal(userLangs[..i]))
      {
        var lang := userLangs[i];
        StoreStep(before, userLangs, i);
        if LegalAsWritten(lang.value) {
          detectedLanguageEnv := Assign(detectedLanguageEnv, lang);
        }
        i := i + 1;
      }
      assert userLangs[..i] == userLangs;
      env := detectedLanguageEnv;
      EnvStored(before, forcedLang, req, fallbackLang);
    }

    /**
     * `detectLanguageFiles` on the names the directory scan returned: no
     * names gives `[]` and leaves the field alone; otherwise the codes found
     * in the concatenated names replace the field when there is at least one,
     * and the field is returned.
     */
    method DetectLanguageFiles(names: seq<string>) returns (files: seq<string>)
      requires Valid()
      modifies this`detectedLanguageFiles
      ensures Valid()
      ensures detectedLanguageFiles == FilesAfter(old(detectedLanguageFiles), names)
      ensures files == FilesReturned(old(detectedLanguageFiles), names)
    {
      if names == [] {
        return [];
      }
      var all := Concat(names);
      var codes := ExtractCodes(all);
      if codes != [] {
        detectedLanguageFiles := codes;
      }
      files := detectedLanguageFiles;
    }

    /**
     * `availableLanguage`: the first scanned code that is also a detected
     * candidate value; on success it becomes the forced language, and on
     * failure `forcedLang` is unchanged and `None` (PHP's `false`) is returned.
     */
    method AvailableLanguage(names: seq<string>, req: Request) returns (r: Option<string>)
      requires Valid()
      modifies this`detectedLanguageFiles, this`detectedLanguageEnv, this`forcedLang
      ensures Valid()
      ensures fallbackLang == old(fallbackLang)
      ensures detectedLanguageFiles == FilesAfter(old(detectedLanguageFiles), names)
      ensures detectedLanguageEnv ==
        StoreAll(old(detectedLanguageEnv), EnvCandidates(old(forcedLang), req, fallbackLang))
      ensures r == FirstCommon(FilesReturned(old(detectedLanguageFiles), names), Values(detectedLanguageEnv))
      ensures forcedLang == if r.Some? then r else old(forcedLang)
    {
      var files := DetectLanguageFiles(names);
      var env := DetectLanguageEnv(req);
      r := FirstCommon(files, Values(env));
      assert r.Some? ==> IsCode(r.value) && Truthy(r.value);
      if r.Some? && Truthy(r.value) {
        forcedLang := r;
      }
    }
  }
}
