/** The Quick Preview card list (tools/QuickPreview.tsx): the trimmed input goes through twelve
    detectors in a fixed order, each adding at most one card, and the cards are published
    sorted by priority with the host's stable sort. The detectors reuse the conversions of
    the other tools (base64, base64url, percent-decoding, `\uXXXX` decoding, text
    statistics); JSON, the SQL formatter library and the two digests are host functions. */
module QuickPreview {
  import opened JsStrings
  import opened JsNumbers
  import opened JsonHost
  import Base64
  import Jwt
  import PercentEncoding
  import UnicodeEscapes
  import TextInspector
  import Timestamps
  import Colors

  // ----- cards -----

  /** The card ids. */
  datatype Id = JsonId | SqlId | TimestampId | ColorId | JwtId | UrlId | UnicodeId | Base64Id | NumberId
              | TextStatsId | QrCodeId | HashId

  /** The order the detectors run in, which is the order their cards are pushed. */
  const PushOrder: seq<Id> := [JsonId, SqlId, TimestampId, ColorId, JwtId, UrlId, UnicodeId, Base64Id, NumberId,
                               TextStatsId, QrCodeId, HashId]

  /** The order the published list follows: by priority, ties in push order. */
  const RankOrder: seq<Id> := [JsonId, JwtId, SqlId, ColorId, TimestampId, UnicodeId, Base64Id, UrlId, NumberId,
                               TextStatsId, QrCodeId, HashId]

  /** The priority each detector gives its card (higher shows first). */
  function Priority(id: Id): int
  {
    match id
    case JsonId => 100
    case SqlId => 95
    case TimestampId => 90
    case ColorId => 95
    case JwtId => 100
    case UrlId => 80
    case UnicodeId => 85
    case Base64Id => 85
    case NumberId => 70
    case TextStatsId => 10
    case QrCodeId => 5
    case HashId => 5
  }

  /** The position of a detector in the push order. */
  function PushIndex(id: Id): (k: nat)
    ensures k < |PushOrder| && PushOrder[k] == id
  {
    match id
    case JsonId => 0
    case SqlId => 1
    case TimestampId => 2
    case ColorId => 3
    case JwtId => 4
    case UrlId => 5
    case UnicodeId => 6
    case Base64Id => 7
    case NumberId => 8
    case TextStatsId => 9
    case QrCodeId => 10
    case HashId => 11
  }

  /** The position of a card in the published order. */
  function Rank(id: Id): (k: nat)
    ensures k < |RankOrder| && RankOrder[k] == id
  {
    match id
    case JsonId => 0
    case JwtId => 1
    case SqlId => 2
    case ColorId => 3
    case TimestampId => 4
    case UnicodeId => 5
    case Base64Id => 6
    case UrlId => 7
    case NumberId => 8
    case TextStatsId => 9
    case QrCodeId => 10
    case HashId => 11
  }

  /** The published order is the order by priority, ties broken by push order. */
  lemma RankIsPriorityThenPush(a: Id, b: Id)
    ensures Rank(a) < Rank(b) <==> Priority(a) > Priority(b) || (Priority(a) == Priority(b) && PushIndex(a) < PushIndex(b))
    ensures Rank(a) == Rank(b) ==> a == b
  {
  }

  /** What a card shows. The timestamp card's ISO, local and relative renderings are
      computed from its milliseconds; the number card's three bases from its value. */
  datatype Content =
    | JsonCard(pretty: JsString)
    | SqlCard(formatted: JsString)
    | TimestampCard(ms: int)
    | ColorCard(color: JsString)
    | JwtCard(header: JsString, payload: JsString)
    | UrlCard(decoded: JsString)
    | UnicodeCard(decoded: JsString)
    | Base64Card(decoded: JsString)
    | NumberCard(number: int)
    | TextStatsCard(chars: nat, words: nat, lines: nat, bytes: nat)
    | QrCodeCard(value: JsString)
    | HashCard(md5: JsString, sha256: JsString)

  datatype PreviewResult = PreviewResult(id: Id, priority: int, content: Content)

  function Ids(rs: seq<PreviewResult>): (ids: seq<Id>)
    ensures |ids| == |rs| && forall i :: 0 <= i < |rs| ==> ids[i] == rs[i].id
  {
    seq(|rs|, i requires 0 <= i < |rs| => rs[i].id)
  }

  // ----- collecting the cards -----

  /** The cards the detectors `f` add when they run in the order `ids`: a detector that
      fires pushes one card with its id and priority. */
  function Collect(f: Id -> Option<Content>, ids: seq<Id>): seq<PreviewResult>
    decreases |ids|
  {
    if ids == [] then []
    else Push(Collect(f, ids[..|ids| - 1]), ids[|ids| - 1], f(ids[|ids| - 1]))
  }

  /** `newResults.push(...)` when a detector fires. */
  function Push(acc: seq<PreviewResult>, id: Id, c: Option<Content>): seq<PreviewResult>
  {
    if c.Some? then acc + [PreviewResult(id, Priority(id), c.value)] else acc
  }

  /** The ids of the detectors in `ids` that fire, in that order. */
  function Firing(f: Id -> Option<Content>, ids: seq<Id>): seq<Id>
    decreases |ids|
  {
    if ids == [] then []
    else Firing(f, ids[..|ids| - 1]) + (if f(ids[|ids| - 1]).Some? then [ids[|ids| - 1]] else [])
  }

  lemma CollectSnoc(f: Id -> Option<Content>, ids: seq<Id>, id: Id)
    ensures Collect(f, ids + [id]) == Push(Collect(f, ids), id, f(id))
  {
    assert (ids + [id])[..|ids|] == ids;
  }

  /** The twelve pushes of the effect, one after the other. */
  lemma CollectPushOrder(f: Id -> Option<Content>)
    ensures Collect(f, PushOrder) ==
      Push(Push(Push(Push(Push(Push(Push(Push(Push(Push(Push(Push([],
        JsonId, f(JsonId)), SqlId, f(SqlId)), TimestampId, f(TimestampId)), ColorId, f(ColorId)),
        JwtId, f(JwtId)), UrlId, f(UrlId)), UnicodeId, f(UnicodeId)), Base64Id, f(Base64Id)),
        NumberId, f(NumberId)), TextStatsId, f(TextStatsId)), QrCodeId, f(QrCodeId)), HashId, f(HashId))
  {
    var s: seq<Id> := [];
    CollectSnoc(f, s, JsonId); s := s + [JsonId];
    CollectSnoc(f, s, SqlId); s := s + [SqlId];
    CollectSnoc(f, s, TimestampId); s := s + [TimestampId];
    CollectSnoc(f, s, ColorId); s := s + [ColorId];
    CollectSnoc(f, s, JwtId); s := s + [JwtId];
    CollectSnoc(f, s, UrlId); s := s + [UrlId];
    CollectSnoc(f, s, UnicodeId); s := s + [UnicodeId];
    CollectSnoc(f, s, Base64Id); s := s + [Base64Id];
    CollectSnoc(f, s, NumberId); s := s + [NumberId];
    CollectSnoc(f, s, TextStatsId); s := s + [TextStatsId];
    CollectSnoc(f, s, QrCodeId); s := s + [QrCodeId];
    CollectSnoc(f, s, HashId); s := s + [HashId];
    assert s == PushOrder;
  }

  /** Every collected card is the card of a firing detector in `ids`, and every firing
      detector in `ids` has its card. */
  lemma {:induction false} CollectMembers(f: Id -> Option<Content>, ids: seq<Id>)
    ensures forall r :: r in Collect(f, ids) ==> r.id in ids && f(r.id).Some? && r == PreviewResult(r.id, Priority(r.id), f(r.id).value)
    ensures forall id :: id in ids && f(id).Some? ==> PreviewResult(id, Priority(id), f(id).value) in Collect(f, ids)
    decreases |ids|
  {
    if ids != [] {
      var init := ids[..|ids| - 1];
      CollectMembers(f, init);
      assert forall id :: id in ids ==> id in init || id == ids[|ids| - 1];
      assert forall id :: id in init ==> id in ids;
    }
  }

  /** Cards in strictly increasing push position. */
  predicate PushSorted(rs: seq<PreviewResult>)
  {
    forall i, j :: 0 <= i < j < |rs| ==> PushIndex(rs[i].id) < PushIndex(rs[j].id)
  }

  /** Every card carries its detector's priority. */
  predicate Honest(rs: seq<PreviewResult>)
  {
    forall i :: 0 <= i < |rs| ==> rs[i].priority == Priority(rs[i].id)
  }

  /** Collecting along ids in increasing push position gives cards in increasing push
      position, each with its detector's priority. */
  lemma {:induction false} CollectPushSorted(f: Id -> Option<Content>, ids: seq<Id>)
    requires IncreasingBy(ids, PushIndex)
    ensures PushSorted(Collect(f, ids)) && Honest(Collect(f, ids))
    decreases |ids|
  {
    if ids != [] {
      var init, last := ids[..|ids| - 1], ids[|ids| - 1];
      assert forall i :: 0 <= i < |init| ==> init[i] == ids[i];
      CollectPushSorted(f, init);
      CollectMembers(f, init);
      var acc := Collect(f, init);
      if f(last).Some? {
        forall i | 0 <= i < |acc| ensures PushIndex(acc[i].id) < PushIndex(last) {
          assert acc[i] in acc;
          var k :| 0 <= k < |init| && init[k] == acc[i].id;
        }
        var r := acc + [PreviewResult(last, Priority(last), f(last).value)];
        forall i, j | 0 <= i < j < |r| ensures PushIndex(r[i].id) < PushIndex(r[j].id) {
          assert r[i] == acc[i];
          if j < |acc| {
            assert r[j] == acc[j];
          }
        }
        forall i | 0 <= i < |r| ensures r[i].priority == Priority(r[i].id) {
          if i < |acc| {
            assert r[i] == acc[i];
          }
        }
      }
    }
  }

  lemma PushIndexNumbersPushOrder()
    ensures Numbers(PushIndex, PushOrder)
  {
  }

  lemma NumbersIncreasing(rank: Id -> nat, order: seq<Id>)
    requires Numbers(rank, order)
    ensures IncreasingBy(order, rank)
  {
  }

  // ----- the stable sort -----

  /** `sort((a, b) => b.priority - a.priority)`: a stable sort by non-increasing priority
      (`Array.prototype.sort` is stable by section 23.1.3.30 of ECMA-262), written as an
      insertion sort. */
  function SortByPriority(rs: seq<PreviewResult>): seq<PreviewResult>
    decreases |rs|
  {
    if rs == [] then [] else Insert(rs[0], SortByPriority(rs[1..]))
  }

  /** Inserts `x` in front of the first card whose priority is not above its own. */
  function Insert(x: PreviewResult, sorted: seq<PreviewResult>): seq<PreviewResult>
    decreases |sorted|
  {
    if sorted == [] || x.priority >= sorted[0].priority then [x] + sorted
    else [sorted[0]] + Insert(x, sorted[1..])
  }

  lemma {:induction false} InsertPermutes(x: PreviewResult, sorted: seq<PreviewResult>)
    ensures multiset(Insert(x, sorted)) == multiset([x] + sorted)
    decreases |sorted|
  {
    if sorted != [] && x.priority < sorted[0].priority {
      InsertPermutes(x, sorted[1..]);
      assert sorted == [sorted[0]] + sorted[1..];
    }
  }

  /** The sort is a permutation. */
  lemma {:induction false} SortPermutes(rs: seq<PreviewResult>)
    ensures multiset(SortByPriority(rs)) == multiset(rs)
    decreases |rs|
  {
    if rs != [] {
      SortPermutes(rs[1..]);
      InsertPermutes(rs[0], SortByPriority(rs[1..]));
      assert rs == [rs[0]] + rs[1..];
    }
  }

  lemma {:induction false} InsertMembers(x: PreviewResult, sorted: seq<PreviewResult>)
    ensures forall z :: z in Insert(x, sorted) <==> z == x || z in sorted
    decreases |sorted|
  {
    if sorted != [] && x.priority < sorted[0].priority {
      InsertMembers(x, sorted[1..]);
      assert forall z :: z in sorted <==> z == sorted[0] || z in sorted[1..] by {
        assert sorted == [sorted[0]] + sorted[1..];
      }
    }
  }

  lemma {:induction false} SortMembers(rs: seq<PreviewResult>)
    ensures forall z :: z in SortByPriority(rs) <==> z in rs
    decreases |rs|
  {
    if rs != [] {
      SortMembers(rs[1..]);
      InsertMembers(rs[0], SortByPriority(rs[1..]));
      assert forall z :: z in rs <==> z == rs[0] || z in rs[1..] by {
        assert rs == [rs[0]] + rs[1..];
      }
    }
  }

  predicate ByPriority(rs: seq<PreviewResult>)
  {
    forall i, j :: 0 <= i < j < |rs| ==> rs[i].priority >= rs[j].priority
  }

  lemma ConsByPriority(a: PreviewResult, t: seq<PreviewResult>)
    requires ByPriority(t) && forall z :: z in t ==> a.priority >= z.priority
    ensures ByPriority([a] + t)
  {
    var r := [a] + t;
    forall i, j | 0 <= i < j < |r| ensures r[i].priority >= r[j].priority {
      assert r[j] == t[j - 1];
      if i == 0 {
        assert t[j - 1] in t;
      } else {
        assert r[i] == t[i - 1];
      }
    }
  }

  lemma UnconsByPriority(t: seq<PreviewResult>)
    requires t != [] && ByPriority(t)
    ensures ByPriority(t[1..]) && forall z :: z in t[1..] ==> t[0].priority >= z.priority
  {
    var tail := t[1..];
    forall i, j | 0 <= i < j < |tail| ensures tail[i].priority >= tail[j].priority {
      assert tail[i] == t[i + 1] && tail[j] == t[j + 1];
    }
    forall z | z in tail ensures t[0].priority >= z.priority {
      var k :| 0 <= k < |tail| && tail[k] == z;
      assert t[k + 1] == z;
    }
  }

  lemma {:induction false} InsertOrdered(x: PreviewResult, sorted: seq<PreviewResult>)
    requires ByPriority(sorted)
    ensures ByPriority(Insert(x, sorted))
    decreases |sorted|
  {
    if sorted == [] {
      ConsByPriority(x, sorted);
    } else {
      UnconsByPriority(sorted);
      var tail := sorted[1..];
      if x.priority >= sorted[0].priority {
        assert forall z :: z in sorted ==> z == sorted[0] || z in tail by {
          assert sorted == [sorted[0]] + tail;
        }
        ConsByPriority(x, sorted);
      } else {
        InsertOrdered(x, tail);
        InsertMembers(x, tail);
        ConsByPriority(sorted[0], Insert(x, tail));
      }
    }
  }

  /** The sort orders by non-increasing priority, whatever the input. */
  lemma {:induction false} SortOrdered(rs: seq<PreviewResult>)
    ensures ByPriority(SortByPriority(rs))
    decreases |rs|
  {
    if rs != [] {
      SortOrdered(rs[1..]);
      InsertOrdered(rs[0], SortByPriority(rs[1..]));
    }
  }

  /** Cards in strictly increasing published position. */
  predicate Ranked(rs: seq<PreviewResult>)
  {
    forall i, j :: 0 <= i < j < |rs| ==> Rank(rs[i].id) < Rank(rs[j].id)
  }

  lemma ConsRanked(a: PreviewResult, t: seq<PreviewResult>)
    requires Ranked(t) && forall z :: z in t ==> Rank(a.id) < Rank(z.id)
    ensures Ranked([a] + t)
  {
    var r := [a] + t;
    forall i, j | 0 <= i < j < |r| ensures Rank(r[i].id) < Rank(r[j].id) {
      assert r[j] == t[j - 1];
      if i == 0 {
        assert t[j - 1] in t;
      } else {
        assert r[i] == t[i - 1];
      }
    }
  }

  lemma UnconsRanked(t: seq<PreviewResult>)
    requires t != [] && Ranked(t)
    ensures Ranked(t[1..]) && forall z :: z in t[1..] ==> Rank(t[0].id) < Rank(z.id)
  {
    var tail := t[1..];
    forall i, j | 0 <= i < j < |tail| ensures Rank(tail[i].id) < Rank(tail[j].id) {
      assert tail[i] == t[i + 1] && tail[j] == t[j + 1];
    }
    forall z | z in tail ensures Rank(t[0].id) < Rank(z.id) {
      var k :| 0 <= k < |tail| && tail[k] == z;
      assert t[k + 1] == z;
    }
  }

  /** Inserting a card that was pushed before every card of a list already in published
      order keeps it in published order. */
  lemma {:induction false} InsertRanked(x: PreviewResult, sorted: seq<PreviewResult>)
    requires Ranked(sorted) && x.priority == Priority(x.id)
    requires forall z :: z in sorted ==> z.priority == Priority(z.id) && PushIndex(x.id) < PushIndex(z.id)
    ensures Ranked(Insert(x, sorted))
    decreases |sorted|
  {
    if sorted == [] {
      ConsRanked(x, sorted);
    } else {
      var s0, tail := sorted[0], sorted[1..];
      assert s0 in sorted;
      UnconsRanked(sorted);
      assert forall z :: z in sorted ==> z == s0 || z in tail by {
        assert sorted == [s0] + tail;
      }
      if x.priority >= s0.priority {
        forall z | z in sorted ensures Rank(x.id) < Rank(z.id) {
          if z != s0 {
            RankIsPriorityThenPush(s0.id, z.id);
          }
          RankIsPriorityThenPush(x.id, z.id);
        }
        ConsRanked(x, sorted);
      } else {
        RankIsPriorityThenPush(s0.id, x.id);
        InsertRanked(x, tail);
        InsertMembers(x, tail);
        ConsRanked(s0, Insert(x, tail));
      }
    }
  }

  /** Sorting cards pushed in push order, each with its own priority, puts them in the
      published order. */
  lemma {:induction false} SortRanks(rs: seq<PreviewResult>)
    requires PushSorted(rs) && Honest(rs)
    ensures Ranked(SortByPriority(rs))
    decreases |rs|
  {
    if rs != [] {
      var tail := rs[1..];
      assert PushSorted(tail) && Honest(tail) by {
        forall i | 0 <= i < |tail| ensures tail[i] == rs[i + 1] { }
      }
      SortRanks(tail);
      SortMembers(tail);
      forall z | z in SortByPriority(tail) ensures z.priority == Priority(z.id) && PushIndex(rs[0].id) < PushIndex(z.id) {
        var k :| 0 <= k < |tail| && tail[k] == z;
        assert rs[k + 1] == z;
      }
      InsertRanked(rs[0], SortByPriority(tail));
    }
  }

  // ----- the published ids -----

  /** Ids in strictly increasing position under `rank`. */
  predicate IncreasingBy(ids: seq<Id>, rank: Id -> nat)
  {
    forall i, j :: 0 <= i < j < |ids| ==> rank(ids[i]) < rank(ids[j])
  }

  /** `rank` numbers the entries of `order`. */
  predicate Numbers(rank: Id -> nat, order: seq<Id>)
  {
    (forall k :: 0 <= k < |order| ==> rank(order[k]) == k) &&
    (forall id :: rank(id) < |order| && order[rank(id)] == id)
  }

  /** In increasing ids below `n`, the one at position `n - 1` comes last. */
  lemma LastOfIncreasing(ids: seq<Id>, rank: Id -> nat, n: nat, k: nat)
    requires IncreasingBy(ids, rank) && forall i :: 0 <= i < |ids| ==> rank(ids[i]) < n
    requires k < |ids| && rank(ids[k]) == n - 1
    ensures k == |ids| - 1
  {
    assert rank(ids[|ids| - 1]) < n;
  }

  lemma DropLastIncreasing(ids: seq<Id>, rank: Id -> nat, n: nat)
    requires ids != [] && IncreasingBy(ids, rank) && forall i :: 0 <= i < |ids| ==> rank(ids[i]) < n
    requires rank(ids[|ids| - 1]) == n - 1
    ensures IncreasingBy(ids[..|ids| - 1], rank) && forall i :: 0 <= i < |ids| - 1 ==> rank(ids[i]) < n - 1
    ensures forall id :: id in ids <==> id == ids[|ids| - 1] || id in ids[..|ids| - 1]
  {
    var init := ids[..|ids| - 1];
    assert ids == init + [ids[|ids| - 1]];
    forall i | 0 <= i < |init| ensures rank(ids[i]) < n - 1 {
      assert rank(ids[i]) < rank(ids[|ids| - 1]);
    }
  }

  lemma FiringStep(f: Id -> Option<Content>, order: seq<Id>, n: nat)
    requires 0 < n <= |order|
    ensures Firing(f, order[..n]) == Firing(f, order[..n - 1]) + (if f(order[n - 1]).Some? then [order[n - 1]] else [])
  {
    assert order[..n][..n - 1] == order[..n - 1];
  }

  /** Increasing ids below `n` that hold exactly the firing detectors among the first `n`
      of `order` are the firing ones in that order. */
  lemma {:induction false} IncreasingIsFiring(ids: seq<Id>, f: Id -> Option<Content>, rank: Id -> nat, order: seq<Id>, n: nat)
    requires n <= |order| && Numbers(rank, order)
    requires IncreasingBy(ids, rank) && forall i :: 0 <= i < |ids| ==> rank(ids[i]) < n
    requires forall id :: rank(id) < n ==> (id in ids <==> f(id).Some?)
    ensures ids == Firing(f, order[..n])
    decreases n
  {
    if n > 0 {
      var top := order[n - 1];
      FiringStep(f, order, n);
      if f(top).Some? {
        var k :| 0 <= k < |ids| && ids[k] == top;
        LastOfIncreasing(ids, rank, n, k);
        DropLastIncreasing(ids, rank, n);
        var init := ids[..|ids| - 1];
        assert forall i :: 0 <= i < |init| ==> init[i] == ids[i];
        forall id | rank(id) < n - 1 ensures id in init <==> f(id).Some? {
          assert id in ids <==> f(id).Some?;
        }
        IncreasingIsFiring(init, f, rank, order, n - 1);
        assert ids == init + [top];
      } else {
        forall i | 0 <= i < |ids| ensures rank(ids[i]) < n - 1 {
          assert ids[i] in ids;
        }
        IncreasingIsFiring(ids, f, rank, order, n - 1);
      }
    }
  }

  lemma RankNumbersRankOrder()
    ensures Numbers(Rank, RankOrder)
  {
  }

  /** Sorting the cards the detectors pushed publishes the firing detectors in the published
      order, each with its own card. */
  lemma SortedCollect(f: Id -> Option<Content>)
    ensures Ids(SortByPriority(Collect(f, PushOrder))) == Firing(f, RankOrder)
    ensures forall r :: r in SortByPriority(Collect(f, PushOrder)) ==> f(r.id).Some? && r == PreviewResult(r.id, Priority(r.id), f(r.id).value)
    ensures Ranked(SortByPriority(Collect(f, PushOrder))) && ByPriority(SortByPriority(Collect(f, PushOrder)))
  {
    var rs := Collect(f, PushOrder);
    var sorted := SortByPriority(rs);
    PushIndexNumbersPushOrder();
    NumbersIncreasing(PushIndex, PushOrder);
    CollectPushSorted(f, PushOrder);
    SortRanks(rs);
    SortOrdered(rs);
    SortMembers(rs);
    CollectMembers(f, PushOrder);
    var ids := Ids(sorted);
    forall id | Rank(id) < 12 ensures id in ids <==> f(id).Some? {
      if id in ids {
        var k :| 0 <= k < |ids| && ids[k] == id;
        assert sorted[k] in sorted;
      }
      if f(id).Some? {
        assert id in PushOrder by { assert PushOrder[PushIndex(id)] == id; }
        var r := PreviewResult(id, Priority(id), f(id).value);
        assert r in sorted;
        var k :| 0 <= k < |sorted| && sorted[k] == r;
        assert ids[k] == id;
      }
    }
    assert RankOrder[..12] == RankOrder;
    RankNumbersRankOrder();
    assert IncreasingBy(ids, Rank);
    IncreasingIsFiring(ids, f, Rank, RankOrder, 12);
  }

  // ----- the detectors -----

  /** What the component calls but does not define: JSON parsing and printing, `format` of
      the sql-formatter library (None when it throws) and the two digests of crypto-js. */
  datatype Host = Host(json: Json, formatSql: JsString -> Option<JsString>, md5: JsString -> JsString,
                       sha256: JsString -> JsString)

  const OpenBrace: CodeUnit := '{' as int
  const CloseBrace: CodeUnit := '}' as int
  const OpenBracket: CodeUnit := '[' as int
  const CloseBracket: CodeUnit := ']' as int
  const Comma: CodeUnit := ',' as int
  const CloseParen: CodeUnit := ')' as int
  const Percent: CodeUnit := '%' as int
  const JwtStart: JsString := ['e' as int, 'y' as int]
  const HexPrefix: JsString := ['0' as int, 'x' as int]
  const BinaryPrefix: JsString := ['0' as int, 'b' as int]
  const HslOpen: JsString := ['h' as int, 's' as int, 'l' as int, '(' as int]
  const RgbOpen: JsString := ['r' as int, 'g' as int, 'b' as int, '(' as int]

  /** Text that starts like an object or an array and ends like one. */
  predicate JsonShape(val: JsString)
  {
    (StartsWith(val, [OpenBrace]) || StartsWith(val, [OpenBracket])) &&
    (EndsWith(val, [CloseBrace]) || EndsWith(val, [CloseBracket]))
  }

  /** The JSON card: the text is pretty-printed when it has the shape and parses. */
  function DetectJson(val: JsString, json: Json): (c: Option<Content>)
  {
    if JsonShape(val) && json.pretty(val).Some? then Some(JsonCard(json.pretty(val).value)) else None
  }

  const SqlKeywords: seq<JsString> := [Lit("SELECT"), Lit("INSERT"), Lit("UPDATE"), Lit("DELETE"), Lit("CREATE"),
                                       Lit("ALTER"), Lit("DROP"), Lit("FROM"), Lit("WHERE"), Lit("JOIN")]

  /** Some keyword occurs in the upper-cased text, and so does one of the four words that
      mark a statement. */
  predicate SqlShape(val: JsString)
  {
    var upper := UpperAscii(val);
    (exists k :: 0 <= k < |SqlKeywords| && Includes(upper, SqlKeywords[k])) &&
    (Includes(upper, Lit("SELECT")) || Includes(upper, Lit("TABLE")) || Includes(upper, Lit("INTO")) ||
     Includes(upper, Lit("VALUES")))
  }

  /** The SQL card: the formatter's output, when it succeeds and changes the text. */
  function DetectSql(val: JsString, formatSql: JsString -> Option<JsString>): (c: Option<Content>)
  {
    if SqlShape(val) && formatSql(val).Some? && formatSql(val).value != val then Some(SqlCard(formatSql(val).value))
    else None
  }

  /** `/^\d{10,13}$/`. */
  predicate TimestampShape(val: JsString)
  {
    10 <= |val| <= 13 && AllDigitsIn(val, 10)
  }

  /** The time the digits stand for: milliseconds with 13 digits, seconds otherwise. */
  function TimestampMs(num: int, digits: nat): int
  {
    if digits == 13 then num else num * 1000
  }

  /** The timestamp card: `parseInt` of the digits as seconds or milliseconds, when the
      date is valid. */
  function DetectTimestamp(val: JsString): (c: Option<Content>)
  {
    if !TimestampShape(val) then None
    else
      match ParseInt(val, 0)
      case None => None
      case Some(num) =>
        var ms := TimestampMs(num, |val|);
        if Timestamps.InTimeRange(ms) then Some(TimestampCard(ms)) else None
  }

  /** `/^#([A-Fa-f0-9]{6}|[A-Fa-f0-9]{3})$/`. */
  predicate HexColorShape(val: JsString)
  {
    (|val| == 4 || |val| == 7) && val[0] == Colors.Hash && AllHexDigits(val[1..])
  }

  /** `\s*\d+\s*` followed by `,` and `n - 1` more numbers, or by `)` at the end when `n`
      is 1. The greedy runs cannot give back anything the next token could use, so one
      left-to-right pass decides the match. */
  predicate RgbArgs(s: JsString, n: nat)
    decreases n
  {
    var a := TrimStart(s);
    var k := DigitPrefixLength(a, 10);
    k > 0 &&
    var b := TrimStart(a[k..]);
    if n <= 1 then b == [CloseParen] else b != [] && b[0] == Comma && RgbArgs(b[1..], n - 1)
  }

  /** `/^rgb\(\s*\d+\s*,\s*\d+\s*,\s*\d+\s*\)$/i`. */
  predicate RgbShape(val: JsString)
  {
    |val| >= 4 && EqualsIgnoreCase(val[..4], RgbOpen) && RgbArgs(val[4..], 3)
  }

  /** The colour card: a hex colour of three or six digits, an `rgb(...)` triple or anything
      that starts with `hsl(`; the card shows the text itself. */
  function DetectColor(val: JsString): (c: Option<Content>)
  {
    if HexColorShape(val) || RgbShape(val) || StartsWith(val, HslOpen) then Some(ColorCard(val)) else None
  }

  /** The JWT card: three dot-separated parts, the text starting with `ey`, and the first two
      parts decoding as base64url to JSON. */
  function DetectJwt(val: JsString, json: Json): (c: Option<Content>)
  {
    var parts := Split(val, Jwt.Dot);
    if |parts| == 3 && StartsWith(val, JwtStart) then
      JwtCardOf(Jwt.DecodeSegment(parts[0]), Jwt.DecodeSegment(parts[1]), json)
    else None
  }

  /** The card of the two decoded parts, when both decoded and both parse. */
  function JwtCardOf(dh: Option<JsString>, dp: Option<JsString>, json: Json): (c: Option<Content>)
  {
    if dh.Some? && dp.Some? && json.pretty(dh.value).Some? && json.pretty(dp.value).Some? then
      Some(JwtCard(json.pretty(dh.value).value, json.pretty(dp.value).value))
    else None
  }

  /** `/%[0-9A-F]{2}/i`: a percent triplet somewhere. */
  predicate HasTriplet(val: JsString)
  {
    exists i :: 0 <= i < |val| && PercentEncoding.TripletAt(val, i)
  }

  /** The URL card: `decodeURIComponent`, when it does not throw and changes the text. */
  function DetectUrl(val: JsString): (c: Option<Content>)
  {
    if HasTriplet(val) then
      match PercentEncoding.Decode(val)
      case None => None
      case Some(decoded) => if decoded != val then Some(UrlCard(decoded)) else None
    else None
  }

  /** `/\\u[0-9a-fA-F]{4}/`: the test is case-sensitive, so only a lower-case `\u` opens
      the card, although the replacement then also rewrites `\U` escapes. */
  predicate HasLowerEscape(val: JsString)
  {
    exists i :: 0 <= i < |val| && UnicodeEscapes.EscapeAt(val, i) && val[i + 1] == 'u' as int
  }

  /** The unicode card: the text with its escapes replaced, when that changes it. */
  function DetectUnicode(val: JsString): (c: Option<Content>)
  {
    if HasLowerEscape(val) then
      var decoded := UnicodeEscapes.Decode(val, UnicodeEscapes.QuickPreviewCard);
      if decoded != val then Some(UnicodeCard(decoded)) else None
    else None
  }

  /** `/^[A-Za-z0-9+/]+={0,2}$/`: base64 characters, then at most two `=`. */
  predicate Base64Shape(val: JsString)
  {
    var body := Jwt.TrimEquals(val);
    body != [] && |val| - |body| <= 2 && Base64.AllBase64Chars(body)
  }

  /** `/^[\x20-\x7E]*$/`. */
  predicate Printable(s: JsString)
  {
    forall i :: 0 <= i < |s| ==> 0x20 <= s[i] <= 0x7E
  }

  /** The base64 card: longer than eight characters, the shape, no space, and `atob`
      giving printable ASCII. */
  function DetectBase64(val: JsString): (c: Option<Content>)
  {
    if |val| > 8 && Base64Shape(val) && Space !in val then
      Base64CardOf(Base64.Atob(val))
    else None
  }

  function Base64CardOf(decoded: Option<JsString>): (c: Option<Content>)
  {
    if decoded.Some? && Printable(decoded.value) then Some(Base64Card(decoded.value)) else None
  }

  predicate IsBinaryDigit(u: CodeUnit) { u == '0' as int || u == '1' as int }

  /** `/^\d+$/`, `/^0x[0-9a-fA-F]+$/` and `/^0b[01]+$/`. */
  predicate DecimalShape(val: JsString) { val != [] && AllDigitsIn(val, 10) }
  predicate HexShape(val: JsString) { |val| > 2 && StartsWith(val, HexPrefix) && AllHexDigits(val[2..]) }
  predicate BinaryShape(val: JsString)
  {
    |val| > 2 && StartsWith(val, BinaryPrefix) && forall i :: 2 <= i < |val| ==> IsBinaryDigit(val[i])
  }

  /** The number the card converts: `parseInt(val, 16)` after `0x`, `parseInt` of the digits
      after `0b` in base 2, `parseInt(val, 10)` otherwise. */
  function NumberValue(val: JsString): Option<int>
  {
    if StartsWith(val, HexPrefix) then ParseInt(val, 16)
    else if StartsWith(val, BinaryPrefix) then ParseInt(val[2..], 2)
    else ParseInt(val, 10)
  }

  /** The number card, when the text has one of the three shapes and reads as a number. */
  function DetectNumber(val: JsString): (c: Option<Content>)
  {
    if DecimalShape(val) || HexShape(val) || BinaryShape(val) then
      match NumberValue(val)
      case None => None
      case Some(num) => Some(NumberCard(num))
    else None
  }

  /** The statistics card: code units, words, lines (`split(/\r\n|\r|\n/)`, so never
      zero) and UTF-8 bytes. */
  function TextStats(val: JsString): Content
  {
    TextStatsCard(|val|, TextInspector.WordCount(val), |TextInspector.SplitLines(val)|,
                  |TextInspector.BlobBytes(val)|)
  }

  /** The card each detector adds for the trimmed text, if any. The last three always
      fire. */
  function Detect(val: JsString, host: Host, id: Id): Option<Content>
  {
    match id
    case JsonId => DetectJson(val, host.json)
    case SqlId => DetectSql(val, host.formatSql)
    case TimestampId => DetectTimestamp(val)
    case ColorId => DetectColor(val)
    case JwtId => DetectJwt(val, host.json)
    case UrlId => DetectUrl(val)
    case UnicodeId => DetectUnicode(val)
    case Base64Id => DetectBase64(val)
    case NumberId => DetectNumber(val)
    case TextStatsId => Some(TextStats(val))
    case QrCodeId => Some(QrCodeCard(val))
    case HashId => Some(HashCard(host.md5(val), host.sha256(val)))
  }

  function Detectors(val: JsString, host: Host): Id -> Option<Content>
  {
    id => Detect(val, host, id)
  }

  // ----- the effect -----

  /** The cards published for an input: none for blank input; otherwise the cards of the
      detectors that fire on the trimmed text, sorted by priority. */
  function Evaluate(input: JsString, host: Host): seq<PreviewResult>
  {
    var val := Trim(input);
    if val == [] then [] else SortByPriority(Collect(Detectors(val, host), PushOrder))
  }

  // ----- what each detector accepts -----

  /** The JSON and JWT cards never appear together: one needs `{` or `[` first, the other
      `ey`. */
  lemma JsonJwtExclusive(val: JsString, json: Json)
    ensures !(DetectJson(val, json).Some? && DetectJwt(val, json).Some?)
  {
    if StartsWith(val, JwtStart) {
      assert val[0] == 'e' as int by {
        assert val[..2][0] == val[0];
      }
      assert !JsonShape(val) by {
        assert val[..1][0] == val[0];
      }
    }
  }

  /** The SQL test looks at the upper-cased text only, so the case of the letters does not
      matter to it. */
  lemma SqlShapeIgnoresCase(a: JsString, b: JsString)
    requires EqualsIgnoreCase(a, b)
    ensures SqlShape(a) <==> SqlShape(b)
  {
    assert UpperAscii(a) == UpperAscii(b);
  }

  lemma PowersOfTen()
    ensures Power(10, 10) == 10_000_000_000 && Power(10, 11) == 100_000_000_000
    ensures Power(10, 12) == 1_000_000_000_000 && Power(10, 13) == 10_000_000_000_000
  {
  }

  /** The digits of a timestamp candidate read as a number below 10^13, and below 10^12
      when there are fewer than 13. */
  lemma TimestampDigits(val: JsString)
    requires TimestampShape(val)
    ensures DigitsValue(val, 10) < 10_000_000_000_000
    ensures |val| < 13 ==> DigitsValue(val, 10) < 1_000_000_000_000
  {
    DigitsValueBound(val, 10);
    PowersOfTen();
    var k := |val|;
    if k == 10 {
    } else if k == 11 {
    } else if k == 12 {
    }
  }

  /** Every run of 10 to 13 digits gives a timestamp card: the value stays below 10^13
      milliseconds (or 10^12 seconds), inside the range of valid dates, so the validity
      check never rejects one. */
  lemma TimestampCardIff(val: JsString)
    ensures DetectTimestamp(val).Some? <==> TimestampShape(val)
    ensures TimestampShape(val) ==>
      DetectTimestamp(val) == Some(TimestampCard(if |val| == 13 then DigitsValue(val, 10) else DigitsValue(val, 10) * 1000))
  {
    if TimestampShape(val) {
      ParseIntDecimal(val);
      TimestampDigits(val);
    }
  }

  lemma NumberOfDecimal(val: JsString)
    requires DecimalShape(val)
    ensures NumberValue(val) == Some(DigitsValue(val, 10))
  {
    assert IsDigitIn(val[0], 10);
    if |val| >= 2 {
      assert IsDigitIn(val[1], 10);
    }
    assert !StartsWith(val, HexPrefix) && !StartsWith(val, BinaryPrefix) by {
      if |val| >= 2 {
        assert val[..2][1] == val[1];
      }
    }
    ParseIntDigits(val, 10);
  }

  lemma NumberOfHex(val: JsString)
    requires HexShape(val)
    ensures NumberValue(val) == Some(DigitsValue(val[2..], 16))
  {
    var body := val[2..];
    assert val[0] == '0' as int && val[1] == 'x' as int by {
      assert val[..2] == HexPrefix;
    }
    forall i | 0 <= i < |body| ensures IsDigitIn(body[i], 16) {
      Colors.HexDigitIsDigitIn(body[i]);
    }
    assert TrimStart(val) == val;
    assert HasRadixPrefix(val, 'x');
    DigitPrefixAll(body, 16);
    assert body[..|body|] == body;
  }

  lemma NumberOfBinary(val: JsString)
    requires BinaryShape(val)
    ensures NumberValue(val) == Some(DigitsValue(val[2..], 2))
  {
    var body := val[2..];
    assert val[0] == '0' as int && val[1] == 'b' as int by {
      assert val[..2] == BinaryPrefix;
    }
    assert !StartsWith(val, HexPrefix) by {
      assert val[..2][1] == val[1];
    }
    forall i | 0 <= i < |body| ensures IsDigitIn(body[i], 2) {
      assert IsBinaryDigit(val[i + 2]);
    }
    ParseIntDigits(body, 2);
  }

  /** The number card appears exactly for the three shapes, and the `isNaN` check never
      rejects one: decimal digits, `0x` and hex digits, `0b` and binary digits are read in
      full in their own base. */
  lemma NumberCardIff(val: JsString)
    ensures DetectNumber(val).Some? <==> DecimalShape(val) || HexShape(val) || BinaryShape(val)
    ensures DecimalShape(val) ==> DetectNumber(val) == Some(NumberCard(DigitsValue(val, 10)))
    ensures HexShape(val) ==> DetectNumber(val) == Some(NumberCard(DigitsValue(val[2..], 16)))
    ensures BinaryShape(val) ==> DetectNumber(val) == Some(NumberCard(DigitsValue(val[2..], 2)))
  {
    if DecimalShape(val) {
      NumberOfDecimal(val);
    } else if HexShape(val) {
      NumberOfHex(val);
    } else if BinaryShape(val) {
      NumberOfBinary(val);
    }
  }

  /** The colour card takes the three-digit shorthand, which the colour tool's converter
      rejects; a six-digit colour is one the converter reads. */
  lemma HexColorAndConverter(val: JsString)
    requires HexColorShape(val)
    ensures DetectColor(val) == Some(ColorCard(val))
    ensures |val| == 7 ==> Colors.HexToRgb(val).Some?
    ensures |val| == 4 ==> Colors.HexToRgb(val) == None
  {
    if |val| == 4 {
      Colors.ShorthandRejected(val);
    }
  }

  /** `#` followed by four or five hex digits is no colour. */
  lemma OddHexIsNoColor(val: JsString)
    requires (|val| == 5 || |val| == 6) && val[0] == Colors.Hash
    ensures DetectColor(val) == None
  {
    assert !StartsWith(val, HslOpen) by {
      assert val[..4][0] == val[0];
    }
    assert !RgbShape(val) by {
      assert ToUpperUnit(val[0]) != ToUpperUnit('r' as int);
    }
  }

  /** The JWT card shows what the JWT decoder shows for the same text: a card exactly when
      the decoder fills both panes and the text starts with `ey`, with the same header and
      payload. */
  lemma JwtCardAgreesWithDecoder(val: JsString, json: Json)
    ensures DetectJwt(val, json).Some? ==>
      Jwt.DecodeToken(val, json) == Jwt.Decoded(DetectJwt(val, json).value.header, DetectJwt(val, json).value.payload, Split(val, Jwt.Dot)[2])
    ensures Jwt.DecodeToken(val, json).Decoded? && StartsWith(val, JwtStart) ==>
      DetectJwt(val, json) == Some(JwtCard(Jwt.DecodeToken(val, json).header, Jwt.DecodeToken(val, json).payload))
  {
    if StartsWith(val, JwtStart) {
      assert val[0] == 'e' as int by {
        assert val[..2][0] == val[0];
      }
      TrimEmptyIffBlank(val);
      var parts := Split(val, Jwt.Dot);
      if |parts| == 3 {
        JwtCardOfPanes(Jwt.DecodeSegment(parts[0]), Jwt.DecodeSegment(parts[1]), parts[2], json);
      }
    }
  }

  lemma JwtCardOfPanes(dh: Option<JsString>, dp: Option<JsString>, sig: JsString, json: Json)
    ensures JwtCardOf(dh, dp, json).Some? <==> Jwt.PanesOf(dh, dp, sig, json).Decoded?
    ensures JwtCardOf(dh, dp, json).Some? ==>
      Jwt.PanesOf(dh, dp, sig, json) == Jwt.Decoded(JwtCardOf(dh, dp, json).value.header, JwtCardOf(dh, dp, json).value.payload, sig)
  {
  }

  /** A token the JWT tool assembles from two JSON texts opens the card, with those texts
      pretty-printed, when it starts with `ey` (as every header starting with `{"` does). */
  lemma AssembledTokenShowsCard(minHeader: JsString, minPayload: JsString, signature: JsString, json: Json)
    requires Base64.IsLatin1(minHeader) && Base64.IsLatin1(minPayload) && Jwt.Dot !in signature
    requires json.pretty(minHeader).Some? && json.pretty(minPayload).Some?
    requires StartsWith(Jwt.AssembleToken(minHeader, minPayload, signature).value, JwtStart)
    ensures DetectJwt(Jwt.AssembleToken(minHeader, minPayload, signature).value, json) ==
      Some(JwtCard(json.pretty(minHeader).value, json.pretty(minPayload).value))
  {
    Jwt.DecodeAssembledToken(minHeader, minPayload, signature, json);
    JwtCardAgreesWithDecoder(Jwt.AssembleToken(minHeader, minPayload, signature).value, json);
  }

  /** What `encodeURIComponent` produces opens the URL card with the original text, unless
      the encoding left the text unchanged. */
  lemma UrlCardOfEncoding(s: JsString)
    requires PercentEncoding.Encode(s, PercentEncoding.Component).Some?
    requires PercentEncoding.Encode(s, PercentEncoding.Component).value != s
    ensures DetectUrl(PercentEncoding.Encode(s, PercentEncoding.Component).value) == Some(UrlCard(s))
  {
    var e := PercentEncoding.Encode(s, PercentEncoding.Component).value;
    if Percent !in e {
      PercentEncoding.EncodeWithoutPercent(s, PercentEncoding.Component);
    }
    var k :| 0 <= k < |e| && e[k] == Percent;
    PercentEncoding.EncodeForm(s, PercentEncoding.Component);
    PercentEncoding.PercentOpensTriplet(e, PercentEncoding.Component, k);
    PercentEncoding.DecodeEncode(s, PercentEncoding.Component);
  }

  /** The unicode card appears exactly when the text holds a `\u` escape: once the test
      passes, the replacement always shortens the text. */
  lemma UnicodeCardIff(val: JsString)
    ensures DetectUnicode(val).Some? <==> HasLowerEscape(val)
  {
    if HasLowerEscape(val) {
      var i :| 0 <= i < |val| && UnicodeEscapes.EscapeAt(val, i) && val[i + 1] == 'u' as int;
      UnicodeEscapes.DecodeShrinks(val, i, UnicodeEscapes.QuickPreviewCard);
    }
  }

  /** The padded encoding of seven or more characters passes the shape tests of the
      base64 card. */
  lemma BtoaPassesBase64Shape(s: JsString)
    requires Base64.IsLatin1(s) && |s| >= 7
    ensures |Base64.Btoa(s).value| > 8 && Base64Shape(Base64.Btoa(s).value) && Space !in Base64.Btoa(s).value
  {
    var e := Base64.EncodeUnpadded(s);
    var p := Base64.Padding(|s|);
    var val := Base64.Btoa(s).value;
    assert val == e + p;
    Base64.BtoaLength(s);
    Base64.UnpaddedLengthValue(|s|);
    assert e[|e| - 1] != Jwt.EqualsSign by {
      assert Base64.IsBase64Char(e[|e| - 1]);
    }
    Jwt.TrimEqualsOfPadded(e, p);
    forall i | 0 <= i < |val| ensures val[i] != Space {
      if i < |e| {
        assert Base64.IsBase64Char(e[i]);
      } else {
        assert val[i] == p[i - |e|];
      }
    }
  }

  /** The `btoa` encoding of printable text of at least seven characters opens the base64
      card with that text; shorter text encodes to at most eight characters, which the card
      ignores. */
  lemma Base64CardOfBtoa(s: JsString)
    requires Printable(s)
    ensures Base64.IsLatin1(s)
    ensures |s| >= 7 ==> DetectBase64(Base64.Btoa(s).value) == Some(Base64Card(s))
    ensures |s| <= 6 ==> DetectBase64(Base64.Btoa(s).value) == None
  {
    Base64.BtoaLength(s);
    if |s| >= 7 {
      BtoaPassesBase64Shape(s);
      Base64.AtobBtoa(s);
    }
  }

  /** The statistics card agrees with the text inspector, and for non-blank text counts at
      least one word and one line. */
  lemma TextStatsAgree(val: JsString)
    requires !NoNonBlank(val)
    ensures var st := TextInspector.StatsOf(val);
      TextStats(val) == TextStatsCard(st.chars, st.words, st.lines, st.bytes)
    ensures TextStats(val).words >= 1 && TextStats(val).lines >= 1
    ensures TextStats(val).chars <= TextStats(val).bytes <= 3 * TextStats(val).chars
  {
    TextInspector.StatsFacts(val);
  }

  // ----- the published list -----

  lemma {:induction false} FiringMembers(f: Id -> Option<Content>, ids: seq<Id>)
    ensures forall id :: id in Firing(f, ids) <==> id in ids && f(id).Some?
    decreases |ids|
  {
    if ids != [] {
      var init := ids[..|ids| - 1];
      FiringMembers(f, init);
      assert ids == init + [ids[|ids| - 1]];
    }
  }

  /** The published list is the list of the detectors that fire on the trimmed input, in
      the order of priority with ties in push order; each card is its detector's card with
      its detector's priority, no id appears twice, and priorities never increase along the
      list. */
  lemma EvaluateOrder(input: JsString, host: Host)
    ensures Ids(Evaluate(input, host)) == if Trim(input) == [] then [] else Firing(Detectors(Trim(input), host), RankOrder)
    ensures ByPriority(Evaluate(input, host))
    ensures forall r :: r in Evaluate(input, host) ==>
      r.priority == Priority(r.id) && Detect(Trim(input), host, r.id) == Some(r.content)
    ensures forall i, j :: 0 <= i < j < |Evaluate(input, host)| ==> Evaluate(input, host)[i].id != Evaluate(input, host)[j].id
  {
    if Trim(input) != [] {
      SortedCollect(Detectors(Trim(input), host));
    }
  }

  /** A card is published exactly when the input is not blank and its detector fires on the
      trimmed input. */
  lemma EvaluateShows(input: JsString, host: Host, id: Id)
    ensures id in Ids(Evaluate(input, host)) <==> Trim(input) != [] && Detect(Trim(input), host, id).Some?
  {
    EvaluateOrder(input, host);
    if Trim(input) != [] {
      FiringMembers(Detectors(Trim(input), host), RankOrder);
      assert id in RankOrder by {
        assert RankOrder[Rank(id)] == id;
      }
    }
  }

  /** Only blank input publishes no card. */
  lemma EvaluateBlank(input: JsString, host: Host)
    ensures Evaluate(input, host) == [] <==> NoNonBlank(input)
  {
    TrimEmptyIffBlank(input);
    EvaluateShows(input, host, TextStatsId);
  }

  /** For input that is not blank the list ends with the statistics, the QR code and the
      hashes, which always fire and have the lowest priorities. */
  lemma EvaluateEndsWithFallbacks(input: JsString, host: Host)
    requires !NoNonBlank(input)
    ensures |Evaluate(input, host)| >= 3
    ensures Ids(Evaluate(input, host))[|Evaluate(input, host)| - 3..] == [TextStatsId, QrCodeId, HashId]
  {
    TrimEmptyIffBlank(input);
    FallbacksFire(Trim(input), host);
    SortedEndsWithFallbacks(Detectors(Trim(input), host));
  }

  /** The statistics, QR code and hash detectors fire on any text. */
  lemma FallbacksFire(val: JsString, host: Host)
    ensures Detectors(val, host)(TextStatsId).Some?
    ensures Detectors(val, host)(QrCodeId).Some?
    ensures Detectors(val, host)(HashId).Some?
  {
  }

  lemma SortedEndsWithFallbacks(f: Id -> Option<Content>)
    requires f(TextStatsId).Some? && f(QrCodeId).Some? && f(HashId).Some?
    ensures |SortByPriority(Collect(f, PushOrder))| >= 3
    ensures Ids(SortByPriority(Collect(f, PushOrder)))[|SortByPriority(Collect(f, PushOrder))| - 3..] == [TextStatsId, QrCodeId, HashId]
  {
    SortedCollect(f);
    FiringEndsWithFallbacks(f);
  }

  /** When the three fallbacks fire they close the published order. */
  lemma FiringEndsWithFallbacks(f: Id -> Option<Content>)
    requires f(TextStatsId).Some? && f(QrCodeId).Some? && f(HashId).Some?
    ensures |Firing(f, RankOrder)| >= 3
    ensures Firing(f, RankOrder)[|Firing(f, RankOrder)| - 3..] == [TextStatsId, QrCodeId, HashId]
  {
    FiringStep(f, RankOrder, 12);
    FiringStep(f, RankOrder, 11);
    FiringStep(f, RankOrder, 10);
    assert RankOrder[..12] == RankOrder;
    var head := Firing(f, RankOrder[..9]);
    assert Firing(f, RankOrder) == head + [TextStatsId] + [QrCodeId] + [HashId];
  }

  /** The statistics card of non-blank input counts at least one word and one line. */
  lemma EvaluateStats(input: JsString, host: Host)
    requires !NoNonBlank(input)
    ensures TextStatsId in Ids(Evaluate(input, host))
    ensures TextStats(Trim(input)).words >= 1 && TextStats(Trim(input)).lines >= 1
  {
    EvaluateEndsWithFallbacks(input, host);
    var ids := Ids(Evaluate(input, host));
    assert ids[|ids| - 3] == TextStatsId;
    TrimmedStats(input);
  }

  lemma TrimmedStats(input: JsString)
    requires !NoNonBlank(input)
    ensures TextStats(Trim(input)).words >= 1 && TextStats(Trim(input)).lines >= 1
  {
    TrimEmptyIffBlank(input);
    TrimIdempotent(input);
    TrimEmptyIffBlank(Trim(input));
    TextStatsAgree(Trim(input));
  }

  /** Ten to thirteen digits show both a timestamp and a number card. */
  lemma DigitsShowTimestampAndNumber(input: JsString, host: Host)
    requires TimestampShape(Trim(input))
    ensures TimestampId in Ids(Evaluate(input, host)) && NumberId in Ids(Evaluate(input, host))
  {
    TimestampCardIff(Trim(input));
    NumberCardIff(Trim(input));
    EvaluateShows(input, host, TimestampId);
    EvaluateShows(input, host, NumberId);
  }

  /** The list never holds both a JSON and a JWT card. */
  lemma EvaluateJsonOrJwt(input: JsString, host: Host)
    ensures !(JsonId in Ids(Evaluate(input, host)) && JwtId in Ids(Evaluate(input, host)))
  {
    JsonJwtExclusive(Trim(input), host.json);
    EvaluateShows(input, host, JsonId);
    EvaluateShows(input, host, JwtId);
  }

  // ----- the component -----

  /** One detector's step of the effect: its card is pushed, with the detector's priority,
      when the detector fired. */
  method PushDetected(acc: seq<PreviewResult>, id: Id, c: Option<Content>) returns (r: seq<PreviewResult>)
    ensures r == Push(acc, id, c)
  {
    r := acc;
    if c.Some? {
      r := r + [PreviewResult(id, Priority(id), c.value)];
    }
  }

  /** The effect's twelve detector blocks, in the order the source runs them: each pushes
      its card when its detector fires (the last three always do). `f` gives each
      detector's card for the current text. */
  method PushCards(f: Id -> Option<Content>) returns (newResults: seq<PreviewResult>)
    ensures newResults == Collect(f, PushOrder)
  {
    newResults := [];
    newResults := PushDetected(newResults, JsonId, f(JsonId));
    newResults := PushDetected(newResults, SqlId, f(SqlId));
    newResults := PushDetected(newResults, TimestampId, f(TimestampId));
    newResults := PushDetected(newResults, ColorId, f(ColorId));
    newResults := PushDetected(newResults, JwtId, f(JwtId));
    newResults := PushDetected(newResults, UrlId, f(UrlId));
    newResults := PushDetected(newResults, UnicodeId, f(UnicodeId));
    newResults := PushDetected(newResults, Base64Id, f(Base64Id));
    newResults := PushDetected(newResults, NumberId, f(NumberId));
    newResults := PushDetected(newResults, TextStatsId, f(TextStatsId));
    newResults := PushDetected(newResults, QrCodeId, f(QrCodeId));
    newResults := PushDetected(newResults, HashId, f(HashId));
    CollectPushOrder(f);
  }

  /** The component's state: the text area's content and the published cards. */
  class Preview {
    var input: JsString
    var results: seq<PreviewResult>

    constructor ()
      ensures input == [] && results == []
    {
      input := [];
      results := [];
    }

    /** The text area's change handler; the Clear button sets the empty text. */
    method SetInput(value: JsString)
      modifies this
      ensures input == value && results == old(results)
    {
      input := value;
    }

    /** The effect that runs after each change of the input: nothing for blank input,
        otherwise the twelve detectors push their cards in order and the sorted list is
        published. */
    method Refresh(host: Host)
      modifies this
      ensures input == old(input)
      ensures results == Evaluate(input, host)
    {
      var val := Trim(input);
      if val == [] {
        results := [];
        return;
      }
      var newResults := PushCards(Detectors(val, host));
      results := SortByPriority(newResults);
    }
  }
}
