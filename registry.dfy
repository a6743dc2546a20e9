/**
 * The in-memory registry of feature discussions: the two tables keyed by
 * discussion id, the order in which their keys were created, and the four
 * operations on them (begin a discussion, answer its current prompt, read
 * one, list all).
 */
module Registry {
  import opened Wrappers
  import opened Interview

  /** The decimal digit `d`. */
  function Digit(d: nat): char
    requires d < 10
  {
    ('0' as int + d) as char
  }

  /** The decimal numeral of `n`, as a template literal prints it. */
  function Decimal(n: nat): (s: string)
    ensures |s| >= 1
    ensures forall i :: 0 <= i < |s| ==> '0' <= s[i] <= '9'
    decreases n
  {
    if n < 10 then [Digit(n)] else Decimal(n / 10) + [Digit(n % 10)]
  }

  /** The number a numeral denotes. */
  function NumeralValue(s: string): nat
    requires forall i :: 0 <= i < |s| ==> '0' <= s[i] <= '9'
    decreases |s|
  {
    if s == [] then 0 else NumeralValue(s[..|s| - 1]) * 10 + (s[|s| - 1] as int - '0' as int)
  }

  /** Reading back a printed numeral gives the number. */
  lemma {:induction false} DecimalRoundTrip(n: nat)
    ensures NumeralValue(Decimal(n)) == n
    decreases n
  {
    var s := Decimal(n);
    if n < 10 {
      assert s[..0] == [];
    } else {
      DecimalRoundTrip(n / 10);
      assert s[..|s| - 1] == Decimal(n / 10);
    }
  }

  /** The id a discussion gets when `n - 1` discussions exist: `f1`, `f2`, ... */
  function DiscussionId(n: nat): string {
    "f" + Decimal(n)
  }

  /** The id of the record created i-th, counting from 0. */
  function KeyAt(i: nat): string {
    DiscussionId(i + 1)
  }

  /** Different counts give different ids. */
  lemma DiscussionIdInjective(a: nat, b: nat)
    ensures DiscussionId(a) == DiscussionId(b) ==> a == b
  {
    if DiscussionId(a) == DiscussionId(b) {
      assert Decimal(a) == DiscussionId(a)[1..];
      assert Decimal(b) == DiscussionId(b)[1..];
      DecimalRoundTrip(a);
      DecimalRoundTrip(b);
    }
  }

  /** The text of the record's description slot. */
  function Describe(d: Discussion): (r: string)
    ensures r == "" || Slot(d, Description) == Some(Text(r))
    ensures forall t :: Slot(d, Description) == Some(Text(t)) ==> r == t
  {
    if Description in d.slots && d.slots[Description].Text? then d.slots[Description].text else ""
  }

  /** In a consistent record the description is empty until the first
      prompt is answered, and is that first answer verbatim afterwards. */
  lemma DescribeAnswered(d: Discussion, c: Context)
    requires Consistent(d, c)
    ensures Describe(d) == (if c.conversationHistory == [] then "" else c.conversationHistory[0].response)
  {
    assert FieldIndex(Description) == 0;
  }

  /** One resource of the listing: its uri, its name and its description. */
  datatype Listing = Listing(uri: string, name: string, description: string)

  /** The resource uri of a discussion. */
  function Uri(id: string): string {
    "feature:///" + id
  }

  /** The listing entry of record `d` stored under `id`: its uri, its
      title as name and its description. */
  function ListingOf(id: string, d: Discussion): (r: Listing)
    ensures |r.uri| >= 11 && r.uri[..11] == "feature:///" && r.uri[11..] == id
    ensures r.name == d.title && r.description == Describe(d)
  {
    Listing(Uri(id), d.title, Describe(d))
  }

  /** The listing of the records with the given keys, in that order. */
  function Listings(ds: map<string, Discussion>, ids: seq<string>): (r: seq<Listing>)
    requires forall k :: k in ids ==> k in ds
    ensures |r| == |ids|
    ensures forall i :: 0 <= i < |r| ==> r[i] == ListingOf(ids[i], ds[ids[i]])
    decreases |ids|
  {
    if ids == [] then [] else [ListingOf(ids[0], ds[ids[0]])] + Listings(ds, ids[1..])
  }

  /** Both tables have the same keys; the keys are `f1` ... `fn` in
      creation order, n being the number of records; each record carries
      its own key as id and, with its context, keeps the interview
      invariant. */
  ghost predicate Tables(ds: map<string, Discussion>, cs: map<string, Context>, order: seq<string>) {
    && ds.Keys == cs.Keys
    && |order| == |ds|
    && (forall i :: 0 <= i < |order| ==> order[i] == DiscussionId(i + 1))
    && (forall k :: k in ds <==> k in order)
    && Records(ds, cs)
  }

  /** Every record is registered. The trigger keeps the solver from
      unfolding the interview invariant of records that a proof does not name. */
  ghost predicate Records(ds: map<string, Discussion>, cs: map<string, Context>) {
    forall k {:trigger Registered(ds, cs, k)} :: k in ds ==> Registered(ds, cs, k)
  }

  /** The record under key `k` carries `k` as its id and, with its context,
      keeps the interview invariant. */
  ghost predicate Registered(ds: map<string, Discussion>, cs: map<string, Context>, k: string) {
    k in ds && k in cs && ds[k].id == k && Consistent(ds[k], cs[k])
  }

  /** The id begin computes is not yet in use, and registering a new record
      under it keeps the tables well formed. */
  lemma InsertFresh(ds: map<string, Discussion>, cs: map<string, Context>, order: seq<string>, title: string, now: Timestamp)
    requires Tables(ds, cs, order)
    ensures var id := DiscussionId(|ds| + 1);
      && id !in ds
      && Tables(ds[id := NewDiscussion(id, title, now)], cs[id := NewContext()], order + [id])
  {
    var id := DiscussionId(|ds| + 1);
    assert id !in order by {
      forall i | 0 <= i < |order| ensures order[i] != id {
        DiscussionIdInjective(i + 1, |order| + 1);
      }
    }
    NewIsConsistent(id, title, now);
    var ds', cs', order' := ds[id := NewDiscussion(id, title, now)], cs[id := NewContext()], order + [id];
    assert ds'.Keys == cs'.Keys;
    assert |order'| == |ds'|;
    forall i | 0 <= i < |order'| ensures order'[i] == DiscussionId(i + 1) {
      if i < |order| {
        assert order'[i] == order[i];
      }
    }
    assert forall k :: k in ds' <==> k in order';
    assert Records(ds', cs') by {
      forall k | k in ds' ensures Registered(ds', cs', k) {
        if k != id {
          assert Registered(ds, cs, k);
          assert ds'[k] == ds[k] && cs'[k] == cs[k];
        }
      }
    }
  }

  /** Replacing one record and its context by a consistent pair keeps the
      tables well formed. */
  lemma ReplaceRecord(ds: map<string, Discussion>, cs: map<string, Context>, order: seq<string>,
                      id: string, d: Discussion, c: Context)
    requires Tables(ds, cs, order)
    requires id in ds && d.id == id && Consistent(d, c)
    ensures Tables(ds[id := d], cs[id := c], order)
  {
    var ds', cs' := ds[id := d], cs[id := c];
    assert ds'.Keys == ds.Keys && cs'.Keys == cs.Keys;
    assert Records(ds', cs') by {
      forall k | k in ds' ensures Registered(ds', cs', k) {
        if k != id {
          assert Registered(ds, cs, k);
          assert ds'[k] == ds[k] && cs'[k] == cs[k];
        }
      }
    }
  }

  /** Answering a registered discussion: `Respond` accepts exactly while
      prompts remain, rejects only as an invalid state, and an accepted
      answer leaves the tables well formed once the record and its context
      are replaced. */
  lemma AnswerKeepsTables(ds: map<string, Discussion>, cs: map<string, Context>, order: seq<string>,
                          id: string, response: string, now: Timestamp)
    requires Tables(ds, cs, order) && id in ds
    ensures var res := Respond(ds[id], cs[id], response, now);
      && (res.Success? <==> |cs[id].conversationHistory| < |Script|)
      && (res.Failure? ==> res == Failure(InvalidState))
      && (res.Success? ==> Tables(ds[id := res.value.discussion], cs[id := res.value.context], order))
  {
    var d, c := ds[id], cs[id];
    assert Registered(ds, cs, id);
    if |c.conversationHistory| < |Script| {
      RespondAdvances(d, c, response, now);
      RespondKeepsConsistent(d, c, response, now);
      var o := Respond(d, c, response, now).value;
      ReplaceRecord(ds, cs, order, id, o.discussion, o.context);
    } else {
      RespondWhenComplete(d, c, response, now);
    }
  }

  /** The listing in creation order of well-formed tables has one entry
      per record, the i-th for id `f(i+1)`. */
  lemma ListingsOfTables(ds: map<string, Discussion>, cs: map<string, Context>, order: seq<string>)
    requires Tables(ds, cs, order)
    ensures var r := Listings(ds, order);
      && |r| == |ds|
      && (forall i :: 0 <= i < |r| ==> KeyAt(i) in ds && r[i] == ListingOf(KeyAt(i), ds[KeyAt(i)]))
  {
    var r := Listings(ds, order);
    forall i | 0 <= i < |r| ensures KeyAt(i) in ds && r[i] == ListingOf(KeyAt(i), ds[KeyAt(i)]) {
      assert order[i] in order;
    }
  }

  /** No record is listed twice, so the |ds| entries name all |ds| records. */
  lemma ListingsDistinct(ds: map<string, Discussion>, order: seq<string>)
    requires forall k :: k in order ==> k in ds
    requires forall i :: 0 <= i < |order| ==> order[i] == DiscussionId(i + 1)
    ensures var r := Listings(ds, order);
      forall i, j :: 0 <= i < j < |r| ==> r[i].uri != r[j].uri
  {
    var r := Listings(ds, order);
    forall i, j | 0 <= i < j < |r| ensures r[i].uri != r[j].uri {
      assert r[i].uri == Uri(order[i]) && r[j].uri == Uri(order[j]);
      KeysDistinct(order, i, j);
      UriInjective(order[i], order[j]);
    }
  }

  /** Keys numbered by creation are pairwise different. */
  lemma KeysDistinct(order: seq<string>, i: nat, j: nat)
    requires forall k :: 0 <= k < |order| ==> order[k] == DiscussionId(k + 1)
    requires i < j < |order|
    ensures order[i] != order[j]
  {
    DiscussionIdInjective(i + 1, j + 1);
  }

  /** Different ids give different uris. */
  lemma UriInjective(a: string, b: string)
    ensures Uri(a) == Uri(b) ==> a == b
  {
    if Uri(a) == Uri(b) {
      assert a == Uri(a)[11..];
      assert b == Uri(b)[11..];
    }
  }

  /** The two tables, and their keys in creation order (the order in which
      an object enumerates its string keys). */
  class Store {
    var discussions: map<string, Discussion>
    var contexts: map<string, Context>
    var order: seq<string>

    ghost predicate Valid()
      reads this
    {
      Tables(discussions, contexts, order)
    }

    /** The tables start empty. */
    constructor()
      ensures Valid()
      ensures discussions == map[] && contexts == map[] && order == []
    {
      discussions := map[];
      contexts := map[];
      order := [];
    }

    /** `begin_feature_discussion`: registers a new record under the id
        `f` + (number of records + 1), with an empty context, and returns
        the id and the first prompt. The id is never one already in use,
        so nothing existing is overwritten. */
    method Begin(title: string, now: Timestamp) returns (id: string, first: Prompt)
      requires Valid()
      modifies this
      ensures Valid()
      ensures id == DiscussionId(|old(discussions)| + 1)
      ensures id !in old(discussions)
      ensures discussions == old(discussions)[id := NewDiscussion(id, title, now)]
      ensures contexts == old(contexts)[id := NewContext()]
      ensures order == old(order) + [id]
      ensures first == Script[0]
    {
      id := DiscussionId(|discussions| + 1);
      InsertFresh(discussions, contexts, order, title, now);
      discussions := discussions[id := NewDiscussion(id, title, now)];
      contexts := contexts[id := NewContext()];
      order := order + [id];
      first := Script[0];
    }

    /** `provide_feature_input`: records `response` as the answer to the
        current prompt of discussion `id`. An unknown id, and a discussion
        whose prompts are all answered, are rejected before anything is
        written. Otherwise the record and the context of `id` become those
        of `Respond` and no other entry of either table changes. */
    method Answer(id: string, response: string, now: Timestamp) returns (r: Result<Reply, Error>)
      requires Valid()
      modifies this
      ensures Valid()
      ensures order == old(order)
      ensures id !in old(discussions) ==>
        r == Failure(NotFound(id)) && discussions == old(discussions) && contexts == old(contexts)
      ensures id in old(discussions) ==>
        match Respond(old(discussions)[id], old(contexts)[id], response, now)
        case Failure(e) => r == Failure(e) && discussions == old(discussions) && contexts == old(contexts)
        case Success(o) =>
          && r == Success(o.reply)
          && discussions == old(discussions)[id := o.discussion]
          && contexts == old(contexts)[id := o.context]
      ensures id in old(discussions) ==>
        (r.Success? <==> |old(contexts)[id].conversationHistory| < |Script|)
        && (r.Failure? ==> r == Failure(InvalidState))
    {
      if id !in discussions {
        return Failure(NotFound(id));
      }
      var feature := discussions[id];
      var context := contexts[id];
      // The steps below are `Respond` carried out on the record in place.
      ghost var outcome := Respond(feature, context, response, now);
      AnswerKeepsTables(discussions, contexts, order, id, response, now);
      var k := FindIndex(feature.currentPrompt);
      if k < 0 {
        return Failure(InvalidState);
      }
      var p := Script[k];
      feature := feature.(slots := feature.slots[p.field := WriteValue(p.field, response)]);
      context := context.(conversationHistory := context.conversationHistory + [Entry(p.message, response, now)]);
      var reply;
      if k + 1 < |Script| {
        feature := feature.(currentPrompt := Some(Script[k + 1].id));
        reply := NextQuestion(Script[k + 1]);
      } else {
        feature := feature.(status := Proposed, currentPrompt := None);
        reply := Completed;
      }
      feature := feature.(updatedAt := now);
      assert outcome == Success(Outcome(feature, context, reply));
      discussions := discussions[id := feature];
      contexts := contexts[id := context];
      r := Success(reply);
    }

    /** The read lookup: the record of `id` with its context, or an error
        naming the id when there is none. */
    method Read(id: string) returns (r: Result<(Discussion, Context), Error>)
      requires Valid()
      ensures id in discussions ==> r == Success((discussions[id], contexts[id]))
      ensures id !in discussions ==> r == Failure(NotFound(id))
    {
      if id !in discussions {
        return Failure(NotFound(id));
      }
      r := Success((discussions[id], contexts[id]));
    }

    /** The resource listing: one entry per record, in creation order, the
        i-th for id `f(i+1)`, each with the record's title and description. */
    method List() returns (r: seq<Listing>)
      requires Valid()
      ensures |r| == |discussions|
      ensures forall i :: 0 <= i < |r| ==> KeyAt(i) in discussions && r[i] == ListingOf(KeyAt(i), discussions[KeyAt(i)])
      ensures forall i, j :: 0 <= i < j < |r| ==> r[i].uri != r[j].uri
    {
      r := Listings(discussions, order);
      ListingsOfTables(discussions, contexts, order);
      ListingsDistinct(discussions, order);
    }
  }
}
