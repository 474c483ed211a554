/** Go's `url.Values`: a multimap from parameter name to the ordered list of
    its values. Keys may repeat across `Add` calls and every value is kept. */
module UrlValues {

  type Values = map<string, seq<string>>

  /** One request parameter, a name with one value. */
  datatype Param = Param(key: string, value: string)

  /** The values recorded under `key`, in insertion order (`v[key]`, which
      is nil for a missing key). */
  function Get(vs: Values, key: string): seq<string>
  {
    if key in vs then vs[key] else []
  }

  /** `url.Values.Add`: appends `value` to the list of `key`, leaving every
      other key's list as it was. */
  function Add(vs: Values, key: string, value: string): (r: Values)
    ensures Get(r, key) == Get(vs, key) + [value]
    ensures r.Keys == vs.Keys + {key}
  {
    vs[key := Get(vs, key) + [value]]
  }

  /** `Add` leaves every other key's list as it was. */
  lemma AddKeepsOtherKeys(vs: Values, key: string, value: string)
    ensures forall k :: k != key ==> Get(Add(vs, key, value), k) == Get(vs, k)
  {
  }

  /** The multimap built by adding `ps` one after another to an empty one. */
  function Group(ps: seq<Param>): Values
  {
    if ps == [] then map[]
    else
      var last := ps[|ps| - 1];
      Add(Group(ps[..|ps| - 1]), last.key, last.value)
  }

  /** Adding one parameter to a grouped sequence groups the longer sequence. */
  lemma GroupSnoc(ps: seq<Param>, p: Param)
    ensures Group(ps + [p]) == Add(Group(ps), p.key, p.value)
  {
    assert (ps + [p])[..|ps|] == ps;
  }

  /** Reference reading: the values that `ps` lists for `key`, in order. */
  function ValuesOf(ps: seq<Param>, key: string): seq<string>
  {
    if ps == [] then []
    else (if ps[0].key == key then [ps[0].value] else []) + ValuesOf(ps[1..], key)
  }

  /** The set of keys `ps` mentions. */
  function KeysOf(ps: seq<Param>): set<string>
  {
    set i | 0 <= i < |ps| :: ps[i].key
  }

  lemma {:induction false} ValuesOfSnoc(ps: seq<Param>, p: Param, key: string)
    ensures ValuesOf(ps + [p], key) == ValuesOf(ps, key) + (if p.key == key then [p.value] else [])
  {
    if ps == [] {
      assert [] + [p] == [p];
      assert [p][1..] == [];
    } else {
      assert (ps + [p])[0] == ps[0];
      assert (ps + [p])[1..] == ps[1..] + [p];
      ValuesOfSnoc(ps[1..], p, key);
    }
  }

  /** Grouping loses nothing and reorders nothing: the list under each key is
      exactly the values of that key, in the order they were added. */
  lemma {:induction false} GroupLookup(ps: seq<Param>, key: string)
    ensures Get(Group(ps), key) == ValuesOf(ps, key)
  {
    if ps != [] {
      var init, last := ps[..|ps| - 1], ps[|ps| - 1];
      assert ps == init + [last];
      GroupLookup(init, key);
      ValuesOfSnoc(init, last, key);
    }
  }

  /** The grouped multimap has exactly the keys that occur in `ps`. */
  lemma {:induction false} GroupKeys(ps: seq<Param>)
    ensures Group(ps).Keys == KeysOf(ps)
  {
    if ps != [] {
      var init, last := ps[..|ps| - 1], ps[|ps| - 1];
      GroupKeys(init);
      assert KeysOf(ps) == KeysOf(init) + {last.key} by {
        forall k | k in KeysOf(ps) ensures k in KeysOf(init) + {last.key} {
          var i :| 0 <= i < |ps| && ps[i].key == k;
          if i < |ps| - 1 { assert init[i] == ps[i]; }
        }
        forall k | k in KeysOf(init) ensures k in KeysOf(ps) {
          var i :| 0 <= i < |init| && init[i].key == k;
          assert ps[i] == init[i];
        }
      }
    }
  }
}
