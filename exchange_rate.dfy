/**
 * The exchange-rate collection: its document shape, the `lowercase` and
 * `trim` setters on the currency codes, the unique index on
 * (src, tgt, date), and the three collection operations the resolvers use
 * (latest-by-date lookup, atomic upsert, delete-and-return).
 *
 * The collection is a map from the unique key to the rate, so the unique
 * index holds by construction; `Store` keeps that map as a field and
 * updates it in place.
 */
module ExchangeRateModel {
  import opened Wrappers
  import opened Strings

  // ---------------------------------------------------------------------
  // Currency-code setters
  // ---------------------------------------------------------------------

  /** A code as the schema stores it: lower-case and without surrounding white space. */
  predicate IsCanonical(code: string) {
    IsLowerCase(code) && IsTrimmed(code)
  }

  /**
   * The `lowercase: true, trim: true` setters of `src` and `tgt`. Mongoose
   * runs them on stored values and on query filter values alike.
   */
  function Normalize(code: string): (r: string)
    ensures IsCanonical(r)
  {
    TrimKeepsLowerCase(Lower(code));
    Trim(Lower(code))
  }

  /** A stored code is a fixed point of the setters. */
  lemma NormalizeFixesCanonical(code: string)
    requires IsCanonical(code)
    ensures Normalize(code) == code
  {
    LowerOfLowerCase(code);
    TrimOfTrimmed(code);
  }

  /** Normalising a stored code again gives the same code. */
  lemma NormalizeIdempotent(code: string)
    ensures Normalize(Normalize(code)) == Normalize(code)
  {
    NormalizeFixesCanonical(Normalize(code));
  }

  /** Lower-casing before the setters run makes no difference. */
  lemma NormalizeAfterLower(code: string)
    ensures Normalize(Lower(code)) == Normalize(code)
  {
    LowerIdempotent(code);
  }

  // ---------------------------------------------------------------------
  // Documents and the unique index
  // ---------------------------------------------------------------------

  /** The unique index `{ src: 1, tgt: 1, date: 1 }`. */
  datatype Key = Key(src: string, tgt: string, date: string)

  /** The four required fields of a document; also the `ExchangeInfo` the API returns. */
  datatype ExchangeInfo = ExchangeInfo(src: string, tgt: string, rate: real, date: string)

  /** The collection: one rate per unique key. */
  type Rates = map<Key, real>

  /** The document stored under key `k`. */
  function Document(m: Rates, k: Key): (doc: ExchangeInfo)
    requires k in m
  {
    ExchangeInfo(k.src, k.tgt, m[k], k.date)
  }

  /** Every document of the collection. */
  function Documents(m: Rates): set<ExchangeInfo> {
    set k | k in m :: Document(m, k)
  }

  /** The documents are exactly the (key, rate) entries of the map, read as records. */
  lemma DocumentsOfMap(m: Rates, d: ExchangeInfo)
    ensures d in Documents(m) <==> Key(d.src, d.tgt, d.date) in m && m[Key(d.src, d.tgt, d.date)] == d.rate
  {
    if Key(d.src, d.tgt, d.date) in m && m[Key(d.src, d.tgt, d.date)] == d.rate {
      assert d == Document(m, Key(d.src, d.tgt, d.date));
    }
  }

  /** Two documents that agree on (src, tgt, date) are the same document. */
  lemma UniqueIndex(m: Rates, a: ExchangeInfo, b: ExchangeInfo)
    requires a in Documents(m) && b in Documents(m)
    requires a.src == b.src && a.tgt == b.tgt && a.date == b.date
    ensures a == b
  {
    var ka :| ka in m && a == Document(m, ka);
    var kb :| kb in m && b == Document(m, kb);
    assert ka == kb;
  }

  /** Every stored code is in its stored form. */
  predicate CodesCanonical(m: Rates) {
    forall k :: k in m ==> IsCanonical(k.src) && IsCanonical(k.tgt)
  }

  /** No stored rate is zero, so its reciprocal exists. */
  predicate RatesNonZero(m: Rates) {
    forall k :: k in m ==> m[k] != 0.0
  }

  /** Every stored rate is positive. */
  predicate RatesPositive(m: Rates) {
    forall k :: k in m ==> m[k] > 0.0
  }

  // ---------------------------------------------------------------------
  // findOne({ src, tgt }).sort({ date: -1 })
  // ---------------------------------------------------------------------

  /** Some document is stored for the directed pair (s, t). */
  ghost predicate HasPair(m: Rates, s: string, t: string) {
    exists d :: Key(s, t, d) in m
  }

  /** `d` is the greatest date stored for the directed pair (s, t). */
  ghost predicate IsLatest(m: Rates, s: string, t: string, d: string) {
    Key(s, t, d) in m && forall e :: Key(s, t, e) in m ==> LexLe(e, d)
  }

  /** The dates stored for the directed pair (s, t). */
  function PairDates(m: Rates, s: string, t: string): (ds: set<string>)
    ensures forall d :: d in ds <==> Key(s, t, d) in m
  {
    set k | k in m && k.src == s && k.tgt == t :: k.date
  }

  /** A pair has at most one latest date. */
  lemma LatestUnique(m: Rates, s: string, t: string, d1: string, d2: string)
    requires IsLatest(m, s, t, d1) && IsLatest(m, s, t, d2)
    ensures d1 == d2
  {
    MaxOfUnique(PairDates(m, s, t), d1, d2);
  }

  /**
   * The document for (src, tgt), after the setters, whose date sorts last;
   * None when the pair has no document.
   */
  function Latest(m: Rates, src: string, tgt: string): (r: Option<ExchangeInfo>)
    ensures r.None? <==> !HasPair(m, Normalize(src), Normalize(tgt))
    ensures r.Some? ==>
      && IsLatest(m, Normalize(src), Normalize(tgt), r.value.date)
      && r.value == Document(m, Key(Normalize(src), Normalize(tgt), r.value.date))
  {
    var s, t := Normalize(src), Normalize(tgt);
    var dates := PairDates(m, s, t);
    if dates == {} then
      None
    else
      MaxOfExists(dates);
      assert forall d1, d2 :: IsMaxOf(d1, dates) && IsMaxOf(d2, dates) ==> d1 == d2 by {
        forall d1, d2 | IsMaxOf(d1, dates) && IsMaxOf(d2, dates) ensures d1 == d2 {
          MaxOfUnique(dates, d1, d2);
        }
      }
      var d :| IsMaxOf(d, dates);
      Some(Document(m, Key(s, t, d)))
  }

  // ---------------------------------------------------------------------
  // The collection object
  // ---------------------------------------------------------------------

  class Store {
    var rates: Rates

    /** The stored codes are in stored form (the setters ran on every write). */
    ghost predicate Valid()
      reads this
    {
      CodesCanonical(rates)
    }

    constructor ()
      ensures Valid() && rates == map[]
    {
      rates := map[];
    }

    /**
     * `findOneAndUpdate({src, tgt, date}, {src, tgt, rate, date},
     * {upsert: true, new: true})`: one atomic replace-or-insert on the
     * unique key, returning the document as stored.
     */
    method Upsert(src: string, tgt: string, date: string, rate: real) returns (doc: ExchangeInfo)
      requires Valid()
      modifies this
      ensures Valid()
      ensures var k := Key(Normalize(src), Normalize(tgt), date);
        && rates == old(rates)[k := rate]
        && doc == Document(rates, k)
        && |rates| == if k in old(rates) then |old(rates)| else |old(rates)| + 1
    {
      var k := Key(Normalize(src), Normalize(tgt), date);
      rates := rates[k := rate];
      doc := ExchangeInfo(k.src, k.tgt, rate, date);
    }

    /**
     * `findOneAndDelete({src, tgt, date})`: removes the document with
     * exactly that key and returns it; None, and nothing removed, when
     * there is none.
     */
    method DeleteOne(src: string, tgt: string, date: string) returns (doc: Option<ExchangeInfo>)
      requires Valid()
      modifies this
      ensures Valid()
      ensures var k := Key(Normalize(src), Normalize(tgt), date);
        && (k in old(rates) ==> doc == Some(Document(old(rates), k)) && rates == old(rates) - {k})
        && (k !in old(rates) ==> doc == None && rates == old(rates))
    {
      var k := Key(Normalize(src), Normalize(tgt), date);
      if k in rates {
        doc := Some(Document(rates, k));
        rates := rates - {k};
      } else {
        doc := None;
      }
    }
  }
}
