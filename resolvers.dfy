/**
 * The GraphQL resolvers: `getExchangeRate` (direct quote, else the
 * reciprocal of the reverse quote, else not-found), `postExchangeRate`
 * (upsert with a default date and identity pairs forced to rate 1) and
 * `deleteExchangeRate` (delete by exact key, identity pairs answered
 * without touching the collection).
 *
 * The resolvers lower-case the codes themselves but do not trim them; the
 * collection's setters trim. The clock is a parameter: `now` is the ISO
 * timestamp `new Date().toISOString()` would have produced.
 */
module Resolvers {
  import opened Wrappers
  import opened Strings
  import opened ExchangeRateModel

  /** The two errors the resolvers throw, carrying the codes as the caller wrote them. */
  datatype Error =
    | RateNotFound(src: string, tgt: string)
    | RateNotFoundOn(src: string, tgt: string, date: string)

  /** `getCurrentDate`: the part of the ISO timestamp before its first 'T'. */
  function CurrentDate(now: string): (d: string)
    ensures |d| <= |now| && d == now[..|d|]
    ensures 'T' !in d
    ensures |d| < |now| ==> now[|d|] == 'T'
  {
    if |now| == 0 || now[0] == 'T' then "" else [now[0]] + CurrentDate(now[1..])
  }

  // ---------------------------------------------------------------------
  // Query.getExchangeRate
  // ---------------------------------------------------------------------

  /**
   * Same currency (after lower-casing): rate 1 dated today, no lookup.
   * Otherwise the latest direct document, whatever the reverse direction
   * holds; failing that, the reciprocal of the latest reverse document;
   * failing that, not-found with the codes as given.
   */
  function GetExchangeRate(m: Rates, src: string, tgt: string, now: string): (r: Result<ExchangeInfo, Error>)
    requires RatesNonZero(m)
    ensures Lower(src) == Lower(tgt) ==>
      r == Ok(ExchangeInfo(Lower(src), Lower(tgt), 1.0, CurrentDate(now)))
    ensures Lower(src) != Lower(tgt) && HasPair(m, Normalize(src), Normalize(tgt)) ==>
      && r.Ok?
      && IsLatest(m, Normalize(src), Normalize(tgt), r.value.date)
      && r.value == Document(m, Key(Normalize(src), Normalize(tgt), r.value.date))
    ensures (Lower(src) != Lower(tgt) && !HasPair(m, Normalize(src), Normalize(tgt)) &&
             HasPair(m, Normalize(tgt), Normalize(src))) ==>
      && r.Ok?
      && IsLatest(m, Normalize(tgt), Normalize(src), r.value.date)
      && r.value == ExchangeInfo(Lower(src), Lower(tgt),
                                 1.0 / m[Key(Normalize(tgt), Normalize(src), r.value.date)], r.value.date)
    ensures (Lower(src) != Lower(tgt) && !HasPair(m, Normalize(src), Normalize(tgt)) &&
             !HasPair(m, Normalize(tgt), Normalize(src))) ==>
      r == Err(RateNotFound(src, tgt))
  {
    var ls, lt := Lower(src), Lower(tgt);
    NormalizeAfterLower(src);
    NormalizeAfterLower(tgt);
    if ls == lt then
      Ok(ExchangeInfo(ls, lt, 1.0, CurrentDate(now)))
    else
      match Latest(m, ls, lt)
      case Some(direct) => Ok(direct)
      case None =>
        match Latest(m, lt, ls)
        case None => Err(RateNotFound(src, tgt))
        case Some(reverse) => Ok(ExchangeInfo(ls, lt, 1.0 / reverse.rate, reverse.date))
  }

  /** An identity-pair answer is the same whatever the collection holds. */
  lemma IdentityIgnoresStore(m1: Rates, m2: Rates, src: string, tgt: string, now: string)
    requires RatesNonZero(m1) && RatesNonZero(m2)
    requires Lower(src) == Lower(tgt)
    ensures GetExchangeRate(m1, src, tgt, now) == GetExchangeRate(m2, src, tgt, now)
    ensures GetExchangeRate(m1, src, tgt, now).value.rate == 1.0
  {
  }

  /**
   * A direct quote wins over any reverse quote, even a more recent one:
   * with documents stored in both directions the answer is the latest
   * direct document, never a reciprocal.
   */
  lemma DirectBeatsReverse(m: Rates, src: string, tgt: string, now: string, d1: string, d2: string)
    requires RatesNonZero(m)
    requires Lower(src) != Lower(tgt)
    requires Key(Normalize(src), Normalize(tgt), d1) in m
    requires Key(Normalize(tgt), Normalize(src), d2) in m
    ensures var r := GetExchangeRate(m, src, tgt, now);
      && r.Ok?
      && r.value.src == Normalize(src) && r.value.tgt == Normalize(tgt)
      && IsLatest(m, Normalize(src), Normalize(tgt), r.value.date)
      && r.value.rate == m[Key(Normalize(src), Normalize(tgt), r.value.date)]
  {
  }

  /**
   * Every stored pair of distinct codes is answered by a direct lookup:
   * asking with the stored codes finds the latest document of that pair.
   */
  lemma StoredCodesAnswerDirectly(m: Rates, k: Key, now: string)
    requires CodesCanonical(m) && RatesNonZero(m)
    requires k in m && k.src != k.tgt
    ensures var r := GetExchangeRate(m, k.src, k.tgt, now);
      && r.Ok?
      && r.value.src == k.src && r.value.tgt == k.tgt
      && IsLatest(m, k.src, k.tgt, r.value.date)
      && r.value == Document(m, Key(k.src, k.tgt, r.value.date))
  {
    LowerOfLowerCase(k.src);
    LowerOfLowerCase(k.tgt);
    NormalizeFixesCanonical(k.src);
    NormalizeFixesCanonical(k.tgt);
  }

  lemma ReciprocalPositive(q: real)
    requires q > 0.0
    ensures 1.0 / q > 0.0
  {
  }

  /** With positive stored rates every answer has a positive rate. */
  lemma AnswerRatePositive(m: Rates, src: string, tgt: string, now: string)
    requires RatesPositive(m)
    ensures RatesNonZero(m)
    ensures GetExchangeRate(m, src, tgt, now).Ok? ==> GetExchangeRate(m, src, tgt, now).value.rate > 0.0
  {
    var r := GetExchangeRate(m, src, tgt, now);
    var s, t := Normalize(src), Normalize(tgt);
    if r.Ok? && Lower(src) != Lower(tgt) {
      if HasPair(m, s, t) {
        assert Key(s, t, r.value.date) in m;
      } else {
        assert HasPair(m, t, s);
        var q := m[Key(t, s, r.value.date)];
        assert q > 0.0;
        assert r.value.rate == 1.0 / q;
        ReciprocalPositive(q);
      }
    }
  }

  // ---------------------------------------------------------------------
  // Mutation.postExchangeRate
  // ---------------------------------------------------------------------

  /** `date || getCurrentDate()`: a missing or empty date means today. */
  function FinalDate(date: Option<string>, now: string): string {
    if date.Some? && date.value != "" then date.value else CurrentDate(now)
  }

  /** The key the upsert writes: the stored form of the codes and the final date. */
  function PostKey(src: string, tgt: string, date: Option<string>, now: string): Key {
    Key(Normalize(src), Normalize(tgt), FinalDate(date, now))
  }

  /** The rate the upsert writes: 1 for a same-currency pair (after lower-casing), else the given rate. */
  function PostRate(src: string, tgt: string, rate: real): real {
    if Lower(src) == Lower(tgt) then 1.0 else rate
  }

  /**
   * Writes `PostRate` under `PostKey`, replacing any document with that key
   * and leaving every other key alone, and returns the stored document.
   */
  method PostExchangeRate(store: Store, src: string, tgt: string, rate: real, date: Option<string>, now: string)
    returns (info: ExchangeInfo)
    requires store.Valid()
    modifies store
    ensures store.Valid()
    ensures store.rates == old(store.rates)[PostKey(src, tgt, date, now) := PostRate(src, tgt, rate)]
    ensures info == Document(store.rates, PostKey(src, tgt, date, now))
  {
    var ls, lt := Lower(src), Lower(tgt);
    var finalDate := if date.Some? && date.value != "" then date.value else CurrentDate(now);
    var finalRate := if ls == lt then 1.0 else rate;
    NormalizeAfterLower(src);
    NormalizeAfterLower(tgt);
    info := store.Upsert(ls, lt, finalDate, finalRate);
  }

  /** What the upsert stores, and what it answers, on a same-currency pair and on a defaulted date. */
  lemma PostDefaults(src: string, tgt: string, rate: real, date: Option<string>, now: string)
    ensures Lower(src) == Lower(tgt) ==> PostRate(src, tgt, rate) == 1.0
    ensures Lower(src) != Lower(tgt) ==> PostRate(src, tgt, rate) == rate
    ensures date.None? || date == Some("") ==> PostKey(src, tgt, date, now).date == CurrentDate(now)
    ensures date.Some? && date.value != "" ==> PostKey(src, tgt, date, now).date == date.value
    ensures IsCanonical(PostKey(src, tgt, date, now).src) && IsCanonical(PostKey(src, tgt, date, now).tgt)
  {
  }

  /** Posting the same arguments twice leaves the collection and the answer as one post does. */
  lemma PostIdempotent(m: Rates, src: string, tgt: string, rate: real, date: Option<string>, now: string)
    ensures var k, v := PostKey(src, tgt, date, now), PostRate(src, tgt, rate);
      && m[k := v][k := v] == m[k := v]
      && Document(m[k := v][k := v], k) == Document(m[k := v], k)
  {
  }

  /**
   * The same at the level of the resolver: a second post with the same
   * arguments leaves the collection as the first left it and returns the
   * same record.
   */
  method PostTwice(store: Store, src: string, tgt: string, rate: real, date: Option<string>, now: string)
    returns (first: ExchangeInfo, second: ExchangeInfo)
    requires store.Valid()
    modifies store
    ensures store.Valid()
    ensures store.rates == old(store.rates)[PostKey(src, tgt, date, now) := PostRate(src, tgt, rate)]
    ensures first == second
  {
    first := PostExchangeRate(store, src, tgt, rate, date, now);
    second := PostExchangeRate(store, src, tgt, rate, date, now);
  }

  /** A post replaces the document under its key instead of adding a second one. */
  lemma PostReplaces(m: Rates, src: string, tgt: string, rate: real, date: Option<string>, now: string)
    ensures var k, v := PostKey(src, tgt, date, now), PostRate(src, tgt, rate);
      && |m[k := v]| == (if k in m then |m| else |m| + 1)
      && (forall k' :: k' in m[k := v] && k' != k ==> k' in m && m[k := v][k'] == m[k'])
      && (forall d :: d in Documents(m[k := v]) && d.src == k.src && d.tgt == k.tgt && d.date == k.date ==>
            d.rate == v)
  {
  }

  /** Posting a positive rate keeps every stored rate positive. */
  lemma PostKeepsRatesPositive(m: Rates, src: string, tgt: string, rate: real, date: Option<string>, now: string)
    requires RatesPositive(m) && rate > 0.0
    ensures RatesPositive(m[PostKey(src, tgt, date, now) := PostRate(src, tgt, rate)])
  {
  }

  /**
   * Posting a rate dated no earlier than any stored date of its pair makes
   * it the answer of the next query for that pair.
   */
  lemma {:induction false} PostThenGet(m: Rates, src: string, tgt: string, rate: real, d: string, now: string)
    requires RatesNonZero(m) && rate != 0.0
    requires Lower(src) != Lower(tgt) && d != ""
    requires forall e :: Key(Normalize(src), Normalize(tgt), e) in m ==> LexLe(e, d)
    ensures var m' := m[PostKey(src, tgt, Some(d), now) := PostRate(src, tgt, rate)];
      && RatesNonZero(m')
      && GetExchangeRate(m', src, tgt, now) == Ok(ExchangeInfo(Normalize(src), Normalize(tgt), rate, d))
  {
    var s, t := Normalize(src), Normalize(tgt);
    var k := PostKey(src, tgt, Some(d), now);
    var m' := m[k := PostRate(src, tgt, rate)];
    assert k == Key(s, t, d);
    assert HasPair(m', s, t);
    var r := GetExchangeRate(m', src, tgt, now);
    LexLeReflexive(d);
    assert IsLatest(m', s, t, d);
    LatestUnique(m', s, t, r.value.date, d);
  }

  // ---------------------------------------------------------------------
  // Mutation.deleteExchangeRate
  // ---------------------------------------------------------------------

  /**
   * Same currency (after lower-casing): rate 1 with the given date and no
   * store access. Otherwise removes exactly the key (stored codes, date)
   * and returns the removed document, or fails with not-found and removes
   * nothing.
   */
  method DeleteExchangeRate(store: Store, src: string, tgt: string, date: string)
    returns (res: Result<ExchangeInfo, Error>)
    requires store.Valid()
    modifies store
    ensures store.Valid()
    ensures Lower(src) == Lower(tgt) ==>
      res == Ok(ExchangeInfo(Lower(src), Lower(tgt), 1.0, date)) && store.rates == old(store.rates)
    ensures Lower(src) != Lower(tgt) ==>
      var k := Key(Normalize(src), Normalize(tgt), date);
      && (k in old(store.rates) ==>
            res == Ok(Document(old(store.rates), k)) && store.rates == old(store.rates) - {k})
      && (k !in old(store.rates) ==>
            res == Err(RateNotFoundOn(src, tgt, date)) && store.rates == old(store.rates))
  {
    var ls, lt := Lower(src), Lower(tgt);
    if ls == lt {
      return Ok(ExchangeInfo(ls, lt, 1.0, date));
    }
    NormalizeAfterLower(src);
    NormalizeAfterLower(tgt);
    var removed := store.DeleteOne(ls, lt, date);
    if removed.None? {
      return Err(RateNotFoundOn(src, tgt, date));
    }
    return Ok(removed.value);
  }

  /**
   * After deleting an existing document, the query for its pair no longer
   * answers with that date from the direct direction: a remaining direct
   * document is returned instead, and when the deleted one was the latest
   * the new answer is older.
   */
  lemma {:induction false} DeleteThenGet(m: Rates, src: string, tgt: string, d: string, now: string)
    requires RatesNonZero(m)
    requires Lower(src) != Lower(tgt)
    requires Key(Normalize(src), Normalize(tgt), d) in m
    ensures var s, t := Normalize(src), Normalize(tgt);
      var m' := m - {Key(s, t, d)};
      var r := GetExchangeRate(m', src, tgt, now);
      && RatesNonZero(m')
      && (HasPair(m', s, t) ==> r.Ok? && r.value.date != d && (IsLatest(m, s, t, d) ==> LexLe(r.value.date, d)))
  {
    var s, t := Normalize(src), Normalize(tgt);
    var m' := m - {Key(s, t, d)};
    if HasPair(m', s, t) {
      var r := GetExchangeRate(m', src, tgt, now);
      assert Key(s, t, r.value.date) in m';
    }
  }

  /**
   * A same-currency document written by a post survives a delete with the
   * same codes and date: the delete answers rate 1 and removes nothing.
   */
  method IdentityRowOutlivesDelete(store: Store, src: string, tgt: string, rate: real, date: string, now: string)
    returns (res: Result<ExchangeInfo, Error>)
    requires store.Valid()
    requires Lower(src) == Lower(tgt) && date != ""
    modifies store
    ensures store.Valid()
    ensures res == Ok(ExchangeInfo(Lower(src), Lower(tgt), 1.0, date))
    ensures var k := Key(Normalize(src), Normalize(tgt), date);
      k in store.rates && store.rates[k] == 1.0
  {
    var posted := PostExchangeRate(store, src, tgt, rate, Some(date), now);
    res := DeleteExchangeRate(store, src, tgt, date);
  }

  /**
   * The identity row is not out of reach, though: a delete with " usd"
   * fails the untrimmed same-currency test, and the collection's setters
   * turn its filter into the identity key (usd, usd), which it removes.
   */
  method PaddedDeleteRemovesIdentityRow(store: Store, date: string, now: string)
    returns (res: Result<ExchangeInfo, Error>)
    requires store.Valid() && date != ""
    modifies store
    ensures store.Valid()
    ensures res == Ok(ExchangeInfo("usd", "usd", 1.0, date))
    ensures Key("usd", "usd", date) !in store.rates
  {
    PlainCodes();
    NormalizePaddedUsd();
    LowerPaddedUsd();
    assert |Lower(" usd")| != |Lower("usd")|;
    var posted := PostExchangeRate(store, "usd", "usd", 7.0, Some(date), now);
    res := DeleteExchangeRate(store, " usd", "usd", date);
  }

  // ---------------------------------------------------------------------
  // Concrete runs
  // ---------------------------------------------------------------------

  lemma NormalizeUpperUsd()
    ensures Normalize("USD") == "usd"
  {
    var l := Lower("USD");
    assert l[0] == 'u' && l[1] == 's' && l[2] == 'd';
    assert l == "usd";
    assert IsTrimmed("usd");
    TrimOfTrimmed("usd");
  }

  lemma LowerPaddedKrw()
    ensures Lower(" krw ") == " krw "
  {
    LowerOfLowerCase(" krw ");
  }

  lemma TrimPaddedKrw()
    ensures Trim(" krw ") == "krw"
  {
    assert IsSpace(' ') && !IsSpace('k') && !IsSpace('w');
    assert SkipSpaceForward(" krw ", 0) == 1;
    assert SkipSpaceBackward(" krw ", 5) == 4;
    assert " krw "[1..4] == "krw";
  }

  lemma NormalizePaddedKrw()
    ensures Normalize(" krw ") == "krw"
  {
    LowerPaddedKrw();
    TrimPaddedKrw();
  }

  lemma LowerPaddedUsd()
    ensures Lower(" usd") == " usd"
  {
    LowerOfLowerCase(" usd");
  }

  lemma TrimPaddedUsd()
    ensures Trim(" usd") == "usd"
  {
    assert IsSpace(' ') && !IsSpace('u') && !IsSpace('d');
    assert SkipSpaceForward(" usd", 0) == 1;
    assert SkipSpaceBackward(" usd", 4) == 4;
    assert " usd"[1..4] == "usd";
  }

  lemma NormalizePaddedUsd()
    ensures Normalize(" usd") == "usd"
  {
    LowerPaddedUsd();
    TrimPaddedUsd();
  }

  lemma NormalizeUpperKrw()
    ensures Lower("KRW") == "krw" && Normalize("KRW") == "krw"
  {
    var l := Lower("KRW");
    assert l[0] == 'k' && l[1] == 'r' && l[2] == 'w';
    assert l == "krw";
    assert IsTrimmed("krw");
    TrimOfTrimmed("krw");
  }

  /** "usd" and "krw" are already in stored form. */
  lemma PlainCodes()
    ensures Lower("usd") == "usd" && Normalize("usd") == "usd"
    ensures Lower("krw") == "krw" && Normalize("krw") == "krw"
  {
    assert IsCanonical("usd") && IsCanonical("krw");
    LowerOfLowerCase("usd");
    LowerOfLowerCase("krw");
    NormalizeFixesCanonical("usd");
    NormalizeFixesCanonical("krw");
  }

  /** Posting ("USD", " krw ", 1350, "2024-01-01") into an empty collection stores one usd/krw document. */
  lemma UsdKrwPost(now: string)
    ensures map[][PostKey("USD", " krw ", Some("2024-01-01"), now) := PostRate("USD", " krw ", 1350.0)]
         == map[Key("usd", "krw", "2024-01-01") := 1350.0]
  {
    NormalizeUpperUsd();
    NormalizePaddedKrw();
    assert PostKey("USD", " krw ", Some("2024-01-01"), now) == Key("usd", "krw", "2024-01-01");
    assert PostRate("USD", " krw ", 1350.0) == 1350.0;
  }

  /** A collection holding one document answers a query for its pair with that document. */
  lemma {:induction false} SingleDocumentDirect(k: Key, v: real, src: string, tgt: string, now: string)
    requires v != 0.0
    requires Lower(src) != Lower(tgt)
    requires Normalize(src) == k.src && Normalize(tgt) == k.tgt
    ensures RatesNonZero(map[k := v])
    ensures GetExchangeRate(map[k := v], src, tgt, now) == Ok(ExchangeInfo(k.src, k.tgt, v, k.date))
  {
    var m := map[k := v];
    assert HasPair(m, k.src, k.tgt);
    var r := GetExchangeRate(m, src, tgt, now);
    assert Key(k.src, k.tgt, r.value.date) in m;
  }

  /** A collection holding one document answers a query for the reverse pair with its reciprocal. */
  lemma {:induction false} SingleDocumentReverse(k: Key, v: real, src: string, tgt: string, now: string)
    requires v != 0.0 && k.src != k.tgt
    requires Lower(src) != Lower(tgt)
    requires Normalize(src) == k.tgt && Normalize(tgt) == k.src
    ensures RatesNonZero(map[k := v])
    ensures GetExchangeRate(map[k := v], src, tgt, now) == Ok(ExchangeInfo(Lower(src), Lower(tgt), 1.0 / v, k.date))
  {
    var m := map[k := v];
    assert !HasPair(m, k.tgt, k.src);
    assert HasPair(m, k.src, k.tgt);
    var r := GetExchangeRate(m, src, tgt, now);
    assert Key(k.src, k.tgt, r.value.date) in m;
  }

  /** With only that document, ("usd", "KRW") answers the stored document. */
  lemma UsdKrwDirect(now: string)
    ensures RatesNonZero(map[Key("usd", "krw", "2024-01-01") := 1350.0])
    ensures GetExchangeRate(map[Key("usd", "krw", "2024-01-01") := 1350.0], "usd", "KRW", now)
         == Ok(ExchangeInfo("usd", "krw", 1350.0, "2024-01-01"))
  {
    PlainCodes();
    NormalizeUpperKrw();
    SingleDocumentDirect(Key("usd", "krw", "2024-01-01"), 1350.0, "usd", "KRW", now);
  }

  /** With only that document, ("krw", "usd") answers its reciprocal. */
  lemma UsdKrwReverse(now: string)
    ensures RatesNonZero(map[Key("usd", "krw", "2024-01-01") := 1350.0])
    ensures GetExchangeRate(map[Key("usd", "krw", "2024-01-01") := 1350.0], "krw", "usd", now)
         == Ok(ExchangeInfo("krw", "usd", 1.0 / 1350.0, "2024-01-01"))
  {
    PlainCodes();
    SingleDocumentReverse(Key("usd", "krw", "2024-01-01"), 1350.0, "krw", "usd", now);
  }

  /**
   * The same-currency test compares lower-cased codes without trimming, so
   * " usd" against "USD" is not answered with rate 1: on an empty
   * collection it is not-found.
   */
  lemma PaddedIdentityMissesShortcut(now: string)
    ensures GetExchangeRate(map[], " usd", "USD", now) == Err(RateNotFound(" usd", "USD"))
  {
    assert |Lower(" usd")| != |Lower("USD")|;
  }

  /**
   * For the same reason a post of " usd" to "USD" keeps the given rate,
   * and the collection's setters file it under the identity key (usd, usd).
   */
  lemma PaddedIdentityPostKeepsRate(now: string)
    ensures PostRate(" usd", "USD", 5.0) == 5.0
    ensures PostKey(" usd", "USD", Some("2024-01-01"), now) == Key("usd", "usd", "2024-01-01")
  {
    NormalizePaddedUsd();
    NormalizeUpperUsd();
    assert |Lower(" usd")| != |Lower("USD")|;
  }
}
