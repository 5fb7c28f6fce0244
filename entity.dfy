/**
 * The ordering domain's `Entity` base class
 * (src/Ordering.Domain/SeedWork/Entity.cs): identity by `Id` with the
 * transient rule, a hash code cached at the first request, and a lazily
 * created list of domain events whose recording on the current span
 * redacts the buyer's and card holder's names.
 *
 * `GetType()` is the entity's `runtimeType`, and `base.GetHashCode()`
 * (the reference hash) is its `identityHash`; both are fixed at creation.
 */
module SeedWork {
  import opened Common
  import opened Telemetry

  // ---------------------------------------------------------------------
  // Domain events and the redaction of their recorded content
  // ---------------------------------------------------------------------

  /**
   * A domain event as `AddDomainEvent` sees it: an `OrderStartedDomainEvent`
   * with the two names it redacts, or any other event with its type name;
   * `text` is the event's `ToString()`. Events compare by value here; the
   * event classes are not part of this model, and `List.Remove` compares
   * them with their own `Equals`, which for a plain class is reference
   * identity.
   */
  datatype DomainEvent =
    | OrderStarted(userName: string, cardHolderName: string, text: string)
    | OtherEvent(typeName: string, text: string)
  {
    /** `GetType().Name`. */
    function TypeName(): string {
      match this
      case OrderStarted(_, _, _) => "OrderStartedDomainEvent"
      case OtherEvent(name, _) => name
    }
  }

  /** `pat` occurs in `s` at position `i`. */
  predicate OccursAt(s: string, i: nat, pat: string) {
    i + |pat| <= |s| && s[i..i + |pat|] == pat
  }

  /**
   * `s.Replace(pat, "")`: scanning left to right, every occurrence of `pat`
   * that does not overlap one already removed is dropped.
   */
  function RemoveAll(s: string, pat: string): (r: string)
    requires |pat| > 0
    decreases |s|
    ensures |r| <= |s|
  {
    if |s| < |pat| then s
    else if s[..|pat|] == pat then RemoveAll(s[|pat|..], pat)
    else [s[0]] + RemoveAll(s[1..], pat)
  }

  /** An occurrence at the front is dropped. */
  lemma RemoveAllHead(s: string, pat: string)
    requires |pat| > 0 && OccursAt(s, 0, pat)
    ensures RemoveAll(s, pat) == RemoveAll(s[|pat|..], pat)
  {
    assert s[..|pat|] == s[0..|pat|];
  }

  /** A first character that starts no occurrence is kept. */
  lemma RemoveAllKeep(s: string, pat: string)
    requires |pat| > 0 && |s| > 0 && !OccursAt(s, 0, pat)
    ensures RemoveAll(s, pat) == [s[0]] + RemoveAll(s[1..], pat)
  {
    if |s| < |pat| {
      assert s == [s[0]] + s[1..];
    } else {
      assert s[..|pat|] == s[0..|pat|];
    }
  }

  /** Occurrences in the tail are the occurrences one position further on. */
  lemma OccursInTail(s: string, i: nat, pat: string)
    requires |s| > 0
    ensures OccursAt(s[1..], i, pat) == OccursAt(s, i + 1, pat)
  {
    if i + |pat| <= |s[1..]| {
      assert s[1..][i..i + |pat|] == s[i + 1..i + 1 + |pat|];
    }
  }

  /** Text in which `pat` does not occur is left as it is. */
  lemma {:induction false} RemoveAllAbsent(s: string, pat: string)
    requires |pat| > 0
    requires forall i :: 0 <= i < |s| ==> !OccursAt(s, i, pat)
    ensures RemoveAll(s, pat) == s
    decreases |s|
  {
    if |s| > 0 {
      RemoveAllKeep(s, pat);
      forall i | 0 <= i < |s[1..]|
        ensures !OccursAt(s[1..], i, pat)
      {
        OccursInTail(s, i, pat);
      }
      RemoveAllAbsent(s[1..], pat);
      assert s == [s[0]] + s[1..];
    }
  }

  /**
   * An occurrence of `pat` preceded by text where no occurrence starts is
   * cut out, and removal continues after it.
   */
  lemma {:induction false} RemoveAllSplice(a: string, pat: string, b: string)
    requires |pat| > 0
    requires forall i :: 0 <= i < |a| ==> !OccursAt(a + pat + b, i, pat)
    ensures RemoveAll(a + pat + b, pat) == a + RemoveAll(b, pat)
    decreases |a|
  {
    var s := a + pat + b;
    if |a| == 0 {
      assert s == pat + b;
      assert s[0..|pat|] == pat;
      RemoveAllHead(s, pat);
      assert s[|pat|..] == b;
    } else {
      RemoveAllKeep(s, pat);
      var t := a[1..] + pat + b;
      assert s[1..] == t;
      forall i | 0 <= i < |a[1..]|
        ensures !OccursAt(t, i, pat)
      {
        OccursInTail(s, i, pat);
      }
      RemoveAllSplice(a[1..], pat, b);
      assert a == [a[0]] + a[1..];
    }
  }

  /** The content `AddDomainEvent` records on the span for `e`. */
  function RecordedContent(e: DomainEvent): (r: string)
    ensures e.OtherEvent? ==> r == e.text
    ensures |r| <= |e.text|
  {
    match e
    case OrderStarted(userName, cardHolderName, text) =>
      RemoveAll(RemoveAll(text, "UserName = " + userName + ", "), "CardHolderName = " + cardHolderName + ", ")
    case OtherEvent(_, text) => text
  }

  /**
   * Removing `u` and then `h` from text holding one `u` followed later by
   * one `h`, with no other occurrence of either, leaves the text around them.
   */
  lemma RemoveBothEntries(u: string, h: string, before: string, between: string, after: string)
    requires |u| > 0 && |h| > 0
    requires forall i :: 0 <= i < |before| ==> !OccursAt(before + u + (between + h + after), i, u)
    requires forall i :: 0 <= i < |between + h + after| ==> !OccursAt(between + h + after, i, u)
    requires forall i :: 0 <= i < |before + between| ==> !OccursAt(before + between + h + after, i, h)
    requires forall i :: 0 <= i < |after| ==> !OccursAt(after, i, h)
    ensures RemoveAll(RemoveAll(before + u + (between + h + after), u), h) == before + between + after
  {
    var rest := between + h + after;
    RemoveAllSplice(before, u, rest);
    RemoveAllAbsent(rest, u);
    assert before + rest == (before + between) + h + after;
    RemoveAllSplice(before + between, h, after);
    RemoveAllAbsent(after, h);
  }

  /**
   * An order-started event whose text holds each name entry once, the
   * user's before the card holder's, with no stray occurrence of either:
   * both entries are cut out and everything else is recorded verbatim.
   */
  lemma OrderStartedRedacted(userName: string, cardHolderName: string, before: string, between: string, after: string)
    requires
      var user := "UserName = " + userName + ", ";
      var holder := "CardHolderName = " + cardHolderName + ", ";
      && (forall i :: 0 <= i < |before| ==> !OccursAt(before + user + (between + holder + after), i, user))
      && (forall i :: 0 <= i < |between + holder + after| ==> !OccursAt(between + holder + after, i, user))
      && (forall i :: 0 <= i < |before + between| ==> !OccursAt(before + between + holder + after, i, holder))
      && (forall i :: 0 <= i < |after| ==> !OccursAt(after, i, holder))
    ensures
      var user := "UserName = " + userName + ", ";
      var holder := "CardHolderName = " + cardHolderName + ", ";
      RecordedContent(OrderStarted(userName, cardHolderName, before + user + (between + holder + after)))
        == before + between + after
  {
    var user := "UserName = " + userName + ", ";
    var holder := "CardHolderName = " + cardHolderName + ", ";
    RemoveBothEntries(user, holder, before, between, after);
  }

  // ---------------------------------------------------------------------
  // Identity
  // ---------------------------------------------------------------------

  /** `Id ^ 31` on a C# `int`: the low five bits of the two's complement flipped. */
  function Xor31(x: int32): (r: int32)
    ensures r % 32 == 31 - x % 32
    ensures r - r % 32 == x - x % 32
  {
    x + 31 - 2 * (x % 32)
  }

  /** Flipping the same bits twice restores the value. */
  lemma Xor31Involution(x: int32)
    ensures Xor31(Xor31(x)) == x
  {
    var r := Xor31(x);
    assert r % 32 == 31 - x % 32;
  }

  /** Distinct identifiers hash differently. */
  lemma Xor31Injective(x: int32, y: int32)
    requires Xor31(x) == Xor31(y)
    ensures x == y
  {
    Xor31Involution(x);
    Xor31Involution(y);
  }

  /** The argument of `Equals(object)`. */
  datatype Obj = Null | NotAnEntity | AnEntity(entity: Entity) {
    function Refs(): set<Entity> {
      if AnEntity? then {entity} else {}
    }
  }

  class Entity {
    /** `GetType()`. */
    const runtimeType: string
    /** `base.GetHashCode()`. */
    const identityHash: int32
    var id: int32
    var requestedHashCode: Option<int32>
    /** `None` until the first event is added. */
    var domainEvents: Option<seq<DomainEvent>>

    constructor (runtimeType: string, identityHash: int32)
      ensures this.runtimeType == runtimeType && this.identityHash == identityHash
      ensures id == 0 && requestedHashCode.None? && domainEvents.None?
    {
      this.runtimeType := runtimeType;
      this.identityHash := identityHash;
      id := 0;
      requestedHashCode := None;
      domainEvents := None;
    }

    /** The protected `Id` setter. */
    method SetId(value: int32)
      modifies this
      ensures id == value
      ensures requestedHashCode == old(requestedHashCode) && domainEvents == old(domainEvents)
    {
      id := value;
    }

    /** Not yet given an identity. */
    predicate IsTransient()
      reads this
    {
      id == 0
    }

    /**
     * `Equals(object)`: only an entity can be equal; the same reference
     * always is; otherwise both must have the same runtime type, neither
     * may be transient, and the identifiers must agree.
     */
    predicate Equals(obj: Obj)
      reads this, obj.Refs()
      ensures obj == AnEntity(this) ==> Equals(obj)
      ensures Equals(obj) ==> obj.AnEntity? && obj.entity.runtimeType == runtimeType
      ensures Equals(obj) && obj.entity != this ==> !IsTransient() && obj.entity.id == id
    {
      match obj
      case Null => false
      case NotAnEntity => false
      case AnEntity(item) =>
        if item == this then true
        else if runtimeType != item.runtimeType then false
        else if item.IsTransient() || IsTransient() then false
        else item.id == id
    }

    /** The value the next `GetHashCode()` returns. */
    function HashCode(): (r: int32)
      reads this
      ensures !IsTransient() && requestedHashCode.None? ==> r == Xor31(id)
      ensures !IsTransient() && requestedHashCode.Some? ==> r == requestedHashCode.value
      ensures IsTransient() ==> r == identityHash
    {
      if !IsTransient() then requestedHashCode.GetOr(Xor31(id)) else identityHash
    }

    /** The cache, once filled, holds the hash of the current identifier. */
    predicate CacheAgrees()
      reads this
    {
      requestedHashCode.Some? ==> requestedHashCode.value == Xor31(id)
    }

    /**
     * `GetHashCode()`: a transient entity answers its reference hash; a
     * persistent one fills the cache at the first call and answers the
     * cached value from then on.
     */
    method GetHashCode() returns (h: int32)
      modifies this
      ensures h == old(HashCode())
      ensures IsTransient() ==> requestedHashCode == old(requestedHashCode)
      ensures !IsTransient() ==> requestedHashCode == Some(h)
      ensures id == old(id) && domainEvents == old(domainEvents)
    {
      if !IsTransient() {
        if requestedHashCode.None? {
          requestedHashCode := Some(Xor31(id));
        }
        h := requestedHashCode.value;
      } else {
        h := identityHash;
      }
    }

    /**
     * `AddDomainEvent`: when the span is recorded, it is tagged with the
     * event's type and its redacted content; the event is appended to the
     * list, which is created on first use.
     */
    method AddDomainEvent(eventItem: DomainEvent, activity: Activity?)
      modifies this, activity
      ensures activity != null ==>
                activity.tags == SetFirst(SetFirst(old(activity.tags), "event.type", eventItem.TypeName()),
                                          "event.content", RecordedContent(eventItem))
      ensures domainEvents == Some(old(domainEvents).GetOr([]) + [eventItem])
      ensures id == old(id) && requestedHashCode == old(requestedHashCode)
    {
      if activity != null {
        activity.SetTag("event.type", eventItem.TypeName());
      }
      var eventCopy := RecordedContent(eventItem);
      if activity != null {
        activity.SetTag("event.content", eventCopy);
      }
      var events := domainEvents.GetOr([]);
      domainEvents := Some(events + [eventItem]);
    }

    /** `RemoveDomainEvent`: drops the first equal event; nothing happens before the list exists. */
    method RemoveDomainEvent(eventItem: DomainEvent)
      modifies this
      ensures old(domainEvents).None? ==> domainEvents.None?
      ensures old(domainEvents).Some? ==> domainEvents == Some(RemoveFirst(old(domainEvents).value, eventItem))
      ensures id == old(id) && requestedHashCode == old(requestedHashCode)
    {
      if domainEvents.Some? {
        domainEvents := Some(RemoveFirst(domainEvents.value, eventItem));
      }
    }

    /** `ClearDomainEvents`: empties an existing list. */
    method ClearDomainEvents()
      modifies this
      ensures old(domainEvents).None? ==> domainEvents.None?
      ensures old(domainEvents).Some? ==> domainEvents == Some([])
      ensures id == old(id) && requestedHashCode == old(requestedHashCode)
    {
      if domainEvents.Some? {
        domainEvents := Some([]);
      }
    }
  }

  /** `List.Remove`: the list without its first element equal to `x`. */
  function RemoveFirst(s: seq<DomainEvent>, x: DomainEvent): (r: seq<DomainEvent>)
    ensures x !in s ==> r == s
    ensures x in s ==> |r| == |s| - 1 && multiset(r) == multiset(s) - multiset{x}
  {
    if s == [] then []
    else
      assert s == [s[0]] + s[1..];
      if s[0] == x then s[1..]
      else [s[0]] + RemoveFirst(s[1..], x)
  }

  /** A head that is not `x` stays in front. */
  lemma RemoveFirstKeepsHead(s: seq<DomainEvent>, x: DomainEvent)
    requires s != [] && s[0] != x
    ensures RemoveFirst(s, x) == [s[0]] + RemoveFirst(s[1..], x)
  {
  }

  /** Cutting position `i` out of `s` is keeping its head and cutting `i - 1` out of its tail. */
  lemma CutAfterHead<T>(s: seq<T>, i: nat)
    requires 0 < i < |s|
    ensures [s[0]] + (s[1..][..i - 1] + s[1..][i..]) == s[..i] + s[i + 1..]
  {
    assert [s[0]] + s[1..][..i - 1] == s[..i];
    assert s[1..][i..] == s[i + 1..];
  }

  /** Removal cuts the list at the first occurrence and keeps the rest in order. */
  lemma {:induction false} RemoveFirstAt(s: seq<DomainEvent>, x: DomainEvent, i: nat)
    requires i < |s| && s[i] == x
    requires forall j :: 0 <= j < i ==> s[j] != x
    ensures RemoveFirst(s, x) == s[..i] + s[i + 1..]
  {
    if i == 0 {
      assert s[..0] + s[1..] == s[1..];
    } else {
      var t := s[1..];
      assert forall j :: 0 <= j < i - 1 ==> t[j] == s[j + 1];
      RemoveFirstAt(t, x, i - 1);
      RemoveFirstKeepsHead(s, x);
      CutAfterHead(s, i);
    }
  }

  /** `left == right` on two entity references. */
  predicate OperatorEquals(left: Entity?, right: Entity?)
    reads left, right
    ensures left == null ==> (OperatorEquals(left, right) <==> right == null)
    ensures OperatorEquals(left, right) && left != null ==> right != null && left.runtimeType == right.runtimeType
  {
    if left == null then right == null
    else left.Equals(if right == null then Null else AnEntity(right))
  }

  /** `left != right`. */
  predicate OperatorNotEquals(left: Entity?, right: Entity?)
    reads left, right
    ensures left == null ==> (OperatorNotEquals(left, right) <==> right != null)
    ensures left != null && left == right ==> !OperatorNotEquals(left, right)
  {
    !OperatorEquals(left, right)
  }

  // ---------------------------------------------------------------------
  // Properties of identity
  // ---------------------------------------------------------------------

  /** `Equals` is false for null and non-entity arguments. */
  lemma EqualsOnlyEntities(a: Entity)
    ensures !a.Equals(Null) && !a.Equals(NotAnEntity)
  {
  }

  /** An entity always equals itself, even while transient. */
  lemma EqualsReflexive(a: Entity)
    ensures a.Equals(AnEntity(a))
  {
  }

  lemma EqualsSymmetric(a: Entity, b: Entity)
    ensures a.Equals(AnEntity(b)) == b.Equals(AnEntity(a))
  {
  }

  lemma EqualsTransitive(a: Entity, b: Entity, c: Entity)
    requires a.Equals(AnEntity(b)) && b.Equals(AnEntity(c))
    ensures a.Equals(AnEntity(c))
  {
  }

  /** A transient entity equals nothing but itself. */
  lemma TransientEqualsOnlyItself(a: Entity, b: Entity)
    requires a.IsTransient() && a.Equals(AnEntity(b))
    ensures a == b
  {
  }

  /** Two distinct entities are equal exactly when they share type and a non-zero identifier. */
  lemma EqualsDistinct(a: Entity, b: Entity)
    requires a != b
    ensures a.Equals(AnEntity(b)) <==> a.runtimeType == b.runtimeType && a.id != 0 && a.id == b.id
  {
  }

  /** `==`: null equals only null; otherwise it is `Equals`. `!=` is its negation. */
  lemma OperatorEqualsCases(left: Entity?, right: Entity?)
    ensures left == null ==> (OperatorEquals(left, right) <==> right == null)
    ensures left != null && right == null ==> !OperatorEquals(left, right)
    ensures left != null && right != null ==> OperatorEquals(left, right) == left.Equals(AnEntity(right))
    ensures OperatorNotEquals(left, right) == !OperatorEquals(left, right)
  {
  }

  /** `==` is symmetric. */
  lemma OperatorEqualsSymmetric(left: Entity?, right: Entity?)
    ensures OperatorEquals(left, right) == OperatorEquals(right, left)
  {
    if left != null && right != null {
      EqualsSymmetric(left, right);
    }
  }

  /**
   * Equal entities whose caches agree with their identifiers answer the
   * same hash code.
   */
  lemma EqualEntitiesHashAlike(a: Entity, b: Entity)
    requires a.Equals(AnEntity(b)) && a.CacheAgrees() && b.CacheAgrees()
    ensures a.HashCode() == b.HashCode()
  {
  }

  /**
   * The hash is fixed at the first request: asking, changing the
   * identifier and asking again gives the same answer.
   */
  method HashSurvivesIdChange(e: Entity, newId: int32) returns (first: int32, second: int32)
    requires e.id != 0 && newId != 0
    modifies e
    ensures first == second
    ensures old(e.requestedHashCode).None? ==> first == Xor31(old(e.id))
  {
    first := e.GetHashCode();
    e.SetId(newId);
    second := e.GetHashCode();
  }

  /**
   * Without agreeing caches, equal entities can hash differently: `a` caches
   * `5 ^ 31` at Id 5 and keeps answering it after taking Id 6, while `b`,
   * with Id 6 and equal to `a`, answers `6 ^ 31`.
   */
  method HashBreaksAfterIdChange(a: Entity, b: Entity) returns (ha: int32, hb: int32)
    requires a != b && a.runtimeType == b.runtimeType
    requires a.id == 5 && a.requestedHashCode.None?
    requires b.id == 6 && b.requestedHashCode.None?
    modifies a, b
    ensures a.Equals(AnEntity(b))
    ensures ha == Xor31(5) == 26 && hb == Xor31(6) == 25
  {
    var first := a.GetHashCode();
    a.SetId(6);
    ha := a.GetHashCode();
    hb := b.GetHashCode();
  }
}
