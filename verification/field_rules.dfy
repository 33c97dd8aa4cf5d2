/** The field-rule helpers the Points and Voucher row validators import.
    No source file of this model defines their bodies (and
    `_is_past_timestamp` is called there as if it returned a pair), so the
    row validators receive them as function values and every property about
    the validators holds for any choice of them. */
module FieldRules {
  import opened Wrappers
  import TimeUtils

  datatype Helpers = Helpers(
    /** `_has_decimal_separators(text) -> (found, message)` */
    hasDecimal: string -> (bool, string),
    /** `_needs_csv_quoting(text) -> (needed, message)` */
    needsQuoting: string -> (bool, string),
    /** `_is_unix_millisecond_timestamp(value) -> (valid, message)` as the
        validators call it */
    classify: int -> (bool, string),
    /** `_is_past_timestamp(value) -> (past, message)` as the validators call it */
    isPast: int -> (bool, string),
    /** `float(text)`; `None` is the `ValueError` */
    parseFloat: string -> Option<real>)

  /** The helper behaviour the repository's tests assert on fixed inputs. */
  predicate MatchesTestedExamples(h: Helpers) {
    && !h.hasDecimal("").0
    && h.hasDecimal("123,45").0
    && h.hasDecimal("123.45").0
    && !h.hasDecimal("12345").0
    && !h.hasDecimal("1,234,567").0
    && !h.needsQuoting("").0
    && h.needsQuoting("Hello, World").0
    && !h.needsQuoting("Hello World").0
  }

  /** The helpers wired to `_is_unix_millisecond_timestamp` and
      `_is_past_timestamp` of `src/utils/time_utils.py` and to a clock
      reading `now`. */
  ghost predicate UsesTimeUtils(h: Helpers, now: int) {
    && (forall t :: h.classify(t) == TimeUtils.IsUnixMillisecondTimestamp(TimeUtils.Int(t)))
    && (forall t :: h.isPast(t).0 == TimeUtils.IsPastTimestamp(t, now))
  }

  /** The rule groups' issue lists joined in order. */
  function Flatten<T>(gs: seq<seq<T>>): seq<T>
    decreases |gs|
  {
    if gs == [] then [] else gs[0] + Flatten(gs[1..])
  }

  /** An element of the joined lists comes from one of them... */
  lemma {:induction false} FlattenMember<T>(gs: seq<seq<T>>, x: T) returns (k: nat)
    requires x in Flatten(gs)
    ensures k < |gs| && x in gs[k]
    decreases |gs|
  {
    if x in gs[0] {
      k := 0;
    } else {
      k := FlattenMember(gs[1..], x);
      k := k + 1;
    }
  }

  /** ...and every element of each list is in the joined lists. */
  lemma {:induction false} MemberFlatten<T>(gs: seq<seq<T>>, k: nat, x: T)
    requires k < |gs| && x in gs[k]
    ensures x in Flatten(gs)
    decreases |gs|
  {
    if k > 0 {
      MemberFlatten(gs[1..], k - 1, x);
    }
  }

  /** Every element of `xs` belongs, by `groupOf`, to group `k`. */
  ghost predicate OfGroup<T>(xs: seq<T>, k: nat, groupOf: T -> nat) {
    forall x :: x in xs ==> groupOf(x) == k
  }

  /** Each rule group only produces elements of its own kind. */
  ghost predicate SortedBy<T>(gs: seq<seq<T>>, groupOf: T -> nat) {
    forall k :: 0 <= k < |gs| ==> OfGroup(gs[k], k, groupOf)
  }

  /** When every group keeps to its kind, an element is in the joined lists
      exactly when it is in its own group. */
  lemma InOwnGroup<T>(gs: seq<seq<T>>, groupOf: T -> nat, x: T)
    requires SortedBy(gs, groupOf) && groupOf(x) < |gs|
    ensures x in Flatten(gs) <==> x in gs[groupOf(x)]
  {
    if x in Flatten(gs) {
      var k := FlattenMember(gs, x);
    }
    if x in gs[groupOf(x)] {
      MemberFlatten(gs, groupOf(x), x);
    }
  }

  /** No group after the first produces an element of the first group. */
  lemma LaterGroupsOutside<T>(gs: seq<seq<T>>, groupOf: T -> nat, x: T)
    requires SortedBy(gs, groupOf) && |gs| > 0 && groupOf(x) == 0
    ensures x !in Flatten(gs[1..])
  {
    if x in Flatten(gs[1..]) {
      var k := FlattenMember(gs[1..], x);
      assert false;
    }
  }

  /** The joined lists are empty exactly when every list is. */
  lemma {:induction false} FlattenEmpty<T>(gs: seq<seq<T>>)
    ensures Flatten(gs) == [] <==> forall k :: 0 <= k < |gs| ==> gs[k] == []
    decreases |gs|
  {
    if gs != [] {
      FlattenEmpty(gs[1..]);
      assert forall k :: 1 <= k < |gs| ==> gs[k] == gs[1..][k - 1];
    }
  }
}
