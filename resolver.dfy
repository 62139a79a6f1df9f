/**
 * The dictionary resolver `Mork::lookup`: a `^` reference names a dictionary
 * key, anything else is a literal; either way the result is unescaped.
 */
module Resolver {
  import opened Base
  import opened Codec
  import opened Ids

  /** What a missing or PHP-falsy dictionary entry resolves to. */
  const Unknown: string := "??"

  /**
   * `lookup(v)`.  The key is the text after `^` exactly as written (no scope
   * is added), and PHP's `?:` treats an empty entry and "0" as missing.
   */
  function Lookup(dict: map<string, string>, v: string): (r: string)
    ensures |v| > 0 && v[0] == '^' && v[1..] in dict && Truthy(dict[v[1..]]) ==> r == Unescape(dict[v[1..]])
    ensures |v| > 0 && v[0] == '^' && (v[1..] !in dict || !Truthy(dict[v[1..]])) ==> r == Unknown
    ensures !(|v| > 0 && v[0] == '^') ==> r == Unescape(v)
  {
    if |v| > 0 && v[0] == '^' then
      var raw := if v[1..] in dict && Truthy(dict[v[1..]]) then dict[v[1..]] else Unknown;
      UnescapePlain(Unknown);
      Unescape(raw)
    else Unescape(v)
  }

  /**
   * A reference to a key that an alias stored resolves to the alias's value,
   * unescaped, as long as that value is PHP-truthy; the key may be written
   * with or without its scope when the alias had none.
   */
  lemma LookupAfterAlias(dict: map<string, string>, id: string, scope: string, val: string)
    requires Truthy(val)
    ensures var key := QualifyKey(id, scope);
            Lookup(dict[key := val], "^" + key) == Unescape(val)
  {
    var key := QualifyKey(id, scope);
    assert ("^" + key)[1..] == key;
  }

  /** A reference to a key nobody stored resolves to `??`, whatever the dictionary holds otherwise. */
  lemma LookupMissing(dict: map<string, string>, key: string)
    requires key !in dict
    ensures Lookup(dict, "^" + key) == Unknown
  {
    assert ("^" + key)[1..] == key;
  }

  /** A literal without `$` or escape characters resolves to itself. */
  lemma LookupLiteral(dict: map<string, string>, v: string)
    requires Plain(v) && !(|v| > 0 && v[0] == '^')
    ensures Lookup(dict, v) == v
  {
    UnescapePlain(v);
  }
}
