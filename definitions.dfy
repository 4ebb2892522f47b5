/**
 * The definition store `Defs` (src/main.rs:7-44): two maps, the stored
 * values and the defined/undefined flags, filled from the command line and
 * then only read while files are processed.
 */
module Definitions {
  import opened Wrappers

  class Defs {
    var values: map<string, string>
    var defined: map<string, bool>

    /**
     * The two maps move in step: a key has a stored value exactly when it is
     * flagged defined. `SetDefined` is the only operation that writes them
     * and it keeps this.
     */
    ghost predicate Valid()
      reads this
    {
      forall k :: k in values <==> k in defined && defined[k]
    }

    /** `Defs::new`: nothing is set. */
    constructor ()
      ensures Valid()
      ensures values == map[] && defined == map[]
      ensures forall k :: !IsDefined(k) && GetValue(k) == ""
    {
      values := map[];
      defined := map[];
    }

    /**
     * `set_defined`: `Some(v)` stores `v` and flags the key defined; `None`
     * discards any stored value and flags the key explicitly undefined,
     * overriding an earlier definition.
     */
    method SetDefined(key: string, value: Option<string>)
      modifies this
      ensures value.Some? ==> values == old(values)[key := value.value] && defined == old(defined)[key := true]
      ensures value.None? ==> values == old(values) - {key} && defined == old(defined)[key := false]
      ensures old(Valid()) ==> Valid()
      ensures IsDefined(key) <==> value.Some?
      ensures GetValue(key) == if value.Some? then value.value else ""
      ensures forall k :: k != key ==> IsDefined(k) == old(IsDefined(k)) && GetValue(k) == old(GetValue(k))
    {
      match value {
        case Some(v) =>
          values := values[key := v];
          defined := defined[key := true];
        case None =>
          values := values - {key};
          defined := defined[key := false];
      }
    }

    /** `is_defined`: false for a key never set and for one last set to `None`. */
    function IsDefined(key: string): bool
      reads this
    {
      key in defined && defined[key]
    }

    /**
     * `get_value`: the stored value of a defined key (`"TRUE"` if a defined
     * key had no stored value), the empty string for any other key.
     */
    function GetValue(key: string): (v: string)
      reads this
      ensures !IsDefined(key) ==> v == ""
    {
      if IsDefined(key) then (if key in values then values[key] else "TRUE") else ""
    }
  }

  /**
   * Under the store's invariant a key reads as defined exactly when a value
   * is stored for it, so the `"TRUE"` fallback of `get_value` is never taken.
   */
  lemma StoredIffDefined(defs: Defs, key: string)
    requires defs.Valid()
    ensures defs.IsDefined(key) <==> key in defs.values
    ensures defs.IsDefined(key) ==> defs.GetValue(key) == defs.values[key]
  {
  }
}
