/**
 * The state an event carries while a version is being discovered: the
 * version found so far, the tag name to use for it, and whether discovery
 * failed.
 */
module DiscoverVersionEvent {
  import opened Wrappers

  /** PHP truthiness of a nullable string: null, "" and "0" are falsy. */
  predicate Truthy(s: Option<string>)
  {
    s.Some? && s.value != "" && s.value != "0"
  }

  /** The short ternary on the tag name: keep a truthy tag name, otherwise take the version. */
  function NextTag(tag: Option<string>, v: string): Option<string>
  {
    if Truthy(tag) then tag else Some(v)
  }

  /** The tag name after the versions `found` have been reported in order. */
  function TagAfter(tag: Option<string>, found: seq<string>): Option<string>
    decreases |found|
  {
    if found == [] then tag else TagAfter(NextTag(tag, found[0]), found[1..])
  }

  /** Reporting one more version is one more step of `TagAfter`. */
  lemma {:induction false} TagAfterSnoc(tag: Option<string>, found: seq<string>, v: string)
    ensures TagAfter(tag, found + [v]) == NextTag(TagAfter(tag, found), v)
    decreases |found|
  {
    if found == [] {
      assert TagAfter(NextTag(tag, v), []) == NextTag(tag, v);
      assert ([] + [v])[1..] == [];
    } else {
      assert (found + [v])[1..] == found[1..] + [v];
      TagAfterSnoc(NextTag(tag, found[0]), found[1..], v);
    }
  }

  /**
   * The tag name is the first truthy value it ever held: the initial one if
   * that is truthy, otherwise the first truthy version reported, and when no
   * reported version is truthy either, the last version reported.
   */
  lemma {:induction false} TagAfterIsFirstTruthy(tag: Option<string>, found: seq<string>)
    ensures Truthy(tag) ==> TagAfter(tag, found) == tag
    ensures !Truthy(tag) ==> forall j | 0 <= j < |found| && Truthy(Some(found[j])) && (forall i | 0 <= i < j :: !Truthy(Some(found[i]))) ::
      TagAfter(tag, found) == Some(found[j])
    ensures !Truthy(tag) && found != [] && (forall i | 0 <= i < |found| :: !Truthy(Some(found[i]))) ==>
      TagAfter(tag, found) == Some(found[|found| - 1])
    ensures !Truthy(tag) && found == [] ==> TagAfter(tag, found) == tag
    decreases |found|
  {
    if found != [] {
      TagAfterIsFirstTruthy(NextTag(tag, found[0]), found[1..]);
      assert forall i | 1 <= i < |found| :: found[1..][i - 1] == found[i];
    }
  }

  class Event {
    var version: Option<string>
    var tagName: Option<string>
    var failed: bool

    /** The tag name the event started with, and the versions reported since. */
    ghost var initialTag: Option<string>
    ghost var found: seq<string>

    ghost predicate Valid()
      reads this
    {
      tagName == TagAfter(initialTag, found) &&
      (found != [] ==> version == Some(found[|found| - 1]))
    }

    /** An event as created from the command input: nothing failed yet. */
    constructor (version: Option<string>, tagName: Option<string>)
      ensures Valid()
      ensures this.version == version && this.tagName == tagName && !failed
      ensures initialTag == tagName && found == []
    {
      this.version := version;
      this.tagName := tagName;
      failed := false;
      initialTag := tagName;
      found := [];
    }

    /**
     * `foundVersion`: records the version, and takes it as the tag
     * name unless the tag name is already truthy.
     */
    method FoundVersion(v: string)
      requires Valid()
      modifies this
      ensures Valid()
      ensures version == Some(v)
      ensures Truthy(old(tagName)) ==> tagName == old(tagName)
      ensures !Truthy(old(tagName)) ==> tagName == Some(v)
      ensures failed == old(failed)
      ensures initialTag == old(initialTag) && found == old(found) + [v]
    {
      TagAfterSnoc(initialTag, found, v);
      version := Some(v);
      if !Truthy(tagName) {
        tagName := Some(v);
      }
      found := found + [v];
    }

    /** `versionNotAccepted`: marks the event as failed and changes nothing else. */
    method VersionNotAccepted()
      requires Valid()
      modifies this
      ensures Valid()
      ensures failed
      ensures version == old(version) && tagName == old(tagName)
      ensures initialTag == old(initialTag) && found == old(found)
    {
      failed := true;
    }
  }
}
