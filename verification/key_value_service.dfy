/**
 * The key/value service: a table from string keys to string values with get,
 * set, compare-and-set and prefix search, as its integration tests use it.
 */
module KeyValueStore {
  import opened Wrappers

  /** `s.StartsWith(prefix)`, compared character by character. */
  predicate StartsWith(s: string, prefix: string)
  {
    |prefix| <= |s| && s[..|prefix|] == prefix
  }

  /** The stored entries whose key starts with `prefix`, each with its own value. */
  function Matching(values: map<string, string>, prefix: string): (found: map<string, string>)
    ensures forall k :: k in found <==> k in values && StartsWith(k, prefix)
    ensures forall k :: k in found ==> found[k] == values[k]
  {
    map k | k in values && StartsWith(k, prefix) :: values[k]
  }

  /** Setting a key outside the prefix leaves the search under that prefix as it was. */
  lemma SetOutsidePrefixKeepsMatches(values: map<string, string>, key: string, value: string, prefix: string)
    requires !StartsWith(key, prefix)
    ensures Matching(values[key := value], prefix) == Matching(values, prefix)
  {
    assert forall k :: k in Matching(values[key := value], prefix) <==> k in Matching(values, prefix);
  }

  /** Setting a key under the prefix adds or replaces exactly that entry in the search. */
  lemma SetInsidePrefixUpdatesMatches(values: map<string, string>, key: string, value: string, prefix: string)
    requires StartsWith(key, prefix)
    ensures Matching(values[key := value], prefix) == Matching(values, prefix)[key := value]
  {
    assert Matching(values[key := value], prefix).Keys == Matching(values, prefix).Keys + {key};
  }

  /** Every entry starts with the empty prefix, so searching for it lists the whole table. */
  lemma EmptyPrefixFindsEverything(values: map<string, string>)
    ensures Matching(values, "") == values
  {
    assert forall k :: k in values ==> StartsWith(k, "");
  }

  /** The service over its key/value table. */
  class KeyValueService {
    /** The stored table. */
    var values: map<string, string>

    /** A fresh service over an empty table. */
    constructor ()
      ensures values == map[]
    {
      values := map[];
    }

    /** `GetValue(key)`: the stored value, or null for a key never set. */
    method GetValue(key: string) returns (value: Option<string>)
      ensures value.Some? <==> key in values
      ensures value.Some? ==> value.value == values[key]
    {
      if key in values {
        value := Some(values[key]);
      } else {
        value := None;
      }
    }

    /** `SetValue(key, value)`: stores the value, replacing any earlier one; other keys keep theirs. */
    method SetValue(key: string, value: string)
      modifies this
      ensures values == old(values)[key := value]
    {
      values := values[key := value];
    }

    /**
     * `TrySetValue(key, originalValue, newValue)`: stores the new value only when the
     * key holds `originalValue`, and reports whether it did.
     */
    method TrySetValue(key: string, originalValue: string, newValue: string) returns (ok: bool)
      modifies this
      ensures ok <==> key in old(values) && old(values)[key] == originalValue
      ensures values == if ok then old(values)[key := newValue] else old(values)
    {
      if key in values && values[key] == originalValue {
        values := values[key := newValue];
        ok := true;
      } else {
        ok := false;
      }
    }

    /** `Find(keyPrefix)`: the entries whose key starts with the prefix. */
    method Find(keyPrefix: string) returns (found: map<string, string>)
      ensures found == Matching(values, keyPrefix)
    {
      found := Matching(values, keyPrefix);
    }
  }

  // The integration tests, each on a fresh, empty service.

  /** `Can_Query_For_Key_Prefix`: four keys under "test" are all found, with their own values. */
  method QueryForKeyPrefix() returns (found: map<string, string>)
    ensures found == map["test1" := "hello1", "test2" := "hello2", "test3" := "hello3", "test4" := "hello4"]
  {
    var service := new KeyValueService();
    service.SetValue("test1", "hello1");
    service.SetValue("test2", "hello2");
    service.SetValue("test3", "hello3");
    service.SetValue("test4", "hello4");
    found := service.Find("test");
    assert StartsWith("test1", "test") && StartsWith("test2", "test");
    assert StartsWith("test3", "test") && StartsWith("test4", "test");
  }

  /** `GetValue_ForMissingKey_ReturnsNull`. */
  method GetMissingKey() returns (value: Option<string>)
    ensures value == None
  {
    var service := new KeyValueService();
    value := service.GetValue("foo");
  }

  /** `GetValue_ForExistingKey_ReturnsValue`. */
  method GetExistingKey() returns (value: Option<string>)
    ensures value == Some("bar")
  {
    var service := new KeyValueService();
    service.SetValue("foo", "bar");
    value := service.GetValue("foo");
  }

  /** `SetValue_ForExistingKey_SavesValue`. */
  method SetExistingKey() returns (value: Option<string>)
    ensures value == Some("buzz")
  {
    var service := new KeyValueService();
    service.SetValue("foo", "bar");
    service.SetValue("foo", "buzz");
    value := service.GetValue("foo");
  }

  /** `TrySetValue_ForExistingKeyWithProvidedValue_ReturnsTrueAndSetsValue`. */
  method TrySetWithCurrentValue() returns (result: bool, value: Option<string>)
    ensures result && value == Some("buzz")
  {
    var service := new KeyValueService();
    service.SetValue("foo", "bar");
    result := service.TrySetValue("foo", "bar", "buzz");
    value := service.GetValue("foo");
  }

  /** `TrySetValue_ForExistingKeyWithoutProvidedValue_ReturnsFalseAndDoesNotSetValue`. */
  method TrySetWithOtherValue() returns (result: bool, value: Option<string>)
    ensures !result && value == Some("bar")
  {
    var service := new KeyValueService();
    service.SetValue("foo", "bar");
    result := service.TrySetValue("foo", "bang", "buzz");
    value := service.GetValue("foo");
  }
}
