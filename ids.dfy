/**
 * Identifiers of the Mork reader: `Mork::normalizeId`, the alias-key
 * qualification of `Mork::parseAlias`, and the scope part of an id
 * (`explode(':', id)[1]`).
 */
module Ids {
  import opened Base

  /** A normalised id and its creation status (false for a `-` deletion marker). */
  datatype Normalized = Normalized(id: string, create: bool)

  /** True when `s` starts with the deletion marker `-`. */
  predicate Marked(s: string) {
    |s| > 0 && s[0] == '-'
  }

  /** An id qualified with `scope` unless it already names one. */
  function QualifyKey(id: string, scope: string): (r: string)
    ensures ':' in r
    ensures ':' in id ==> r == id
    ensures ':' !in id ==> |r| == |id| + 1 + |scope| && r[..|id|] == id && r[|id|] == ':' && r[|id| + 1..] == scope
  {
    if ':' in id then id
    else
      var r := id + [':'] + scope;
      assert r[|id|] == ':';
      r
  }

  /** `normalizeId`: strip a leading `-` (no creation), then qualify with the default scope. */
  function NormalizeId(id: string, scope: string): (r: Normalized)
    ensures r.create <==> !Marked(id)
    ensures ':' in r.id
    ensures r.create ==> r.id == QualifyKey(id, scope)
    ensures !r.create ==> r.id == QualifyKey(id[1..], scope)
  {
    if Marked(id) then Normalized(QualifyKey(id[1..], scope), false)
    else Normalized(QualifyKey(id, scope), true)
  }

  /** Qualifying twice changes nothing, whatever the second scope. */
  lemma QualifyKeyIdempotent(id: string, scope: string, scope2: string)
    ensures QualifyKey(QualifyKey(id, scope), scope2) == QualifyKey(id, scope)
  {
  }

  /**
   * Normalising a normalised id keeps it and asks for creation, unless the
   * id carried two deletion markers.
   */
  lemma NormalizeIdIdempotent(id: string, scope: string, scope2: string)
    requires !Marked(if Marked(id) then id[1..] else id)
    ensures var n := NormalizeId(id, scope);
            NormalizeId(n.id, scope2) == Normalized(n.id, true)
  {
    var bare := if Marked(id) then id[1..] else id;
    var n := NormalizeId(id, scope);
    if ':' !in bare && |bare| == 0 {
      assert n.id[0] == ':';
    } else {
      assert n.id[0] == bare[0];
    }
  }

  /** Index of the first `:` of `s`. */
  function ColonIndex(s: string): (i: nat)
    requires ':' in s
    ensures i < |s| && s[i] == ':' && ':' !in s[..i]
  {
    if s[0] == ':' then 0
    else
      var i := ColonIndex(s[1..]) + 1;
      assert s[..i] == [s[0]] + s[1..][..i - 1];
      i
  }

  /** The text of `s` up to its first `:`, or all of it. */
  function UpToColon(s: string): (r: string)
    ensures |r| <= |s| && ':' !in r && r == s[..|r|]
    ensures |r| == |s| || s[|r|] == ':'
  {
    if ':' in s then s[..ColonIndex(s)] else s
  }

  /** `explode(':', s)[1]`: the field between the first and the second `:`. */
  function Field1(s: string): (r: string)
    requires ':' in s
    ensures ':' !in r
    ensures var i := ColonIndex(s); r == UpToColon(s[i + 1..])
  {
    UpToColon(s[ColonIndex(s) + 1..])
  }

  /** The scope part of an id that was qualified by default is the scope's first field. */
  lemma Field1OfQualified(id: string, scope: string)
    requires ':' !in id
    ensures Field1(QualifyKey(id, scope)) == UpToColon(scope)
  {
    var q := QualifyKey(id, scope);
    assert q[..|id|] == id;
    var i := ColonIndex(q);
    assert q[|id|] == ':';
    assert i == |id|;
  }

  /** The scope part never names an id itself: it holds no `:`, unlike every normalised id. */
  lemma Field1NotAnId(s: string, id: string, scope: string)
    requires ':' in s
    ensures Field1(s) != NormalizeId(id, scope).id
  {
  }
}
