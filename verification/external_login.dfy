/**
 * A back-office external login (OAuth) provider: an authentication scheme name
 * and the options configured under that name. Its identity is the scheme name.
 */
module ExternalLogin {
  import opened Wrappers

  /** A constructed provider; both properties are fixed at construction. */
  datatype Provider<O> = Provider(authenticationType: string, options: O)

  /** The constructor's `ArgumentNullException`, with the parameter name it carries. */
  datatype ConstructionError = ArgumentNull(paramName: string)

  /**
   * The constructor: rejects null `properties` first, then a null
   * `authenticationType`; the options are those the options monitor holds under
   * the scheme name (`properties.Get(authenticationType)`), given here as a function.
   */
  function NewProvider<O>(authenticationType: Option<string>, properties: Option<string -> O>)
    : (r: Result<Provider<O>, ConstructionError>)
    ensures properties.None? <==> r == Err(ArgumentNull("properties"))
    ensures properties.Some? && authenticationType.None? <==> r == Err(ArgumentNull("authenticationType"))
    ensures r.Ok? <==> properties.Some? && authenticationType.Some?
    ensures r.Ok? ==> r.value.authenticationType == authenticationType.value
    ensures r.Ok? ==> r.value.options == properties.value(authenticationType.value)
  {
    if properties.None? then Err(ArgumentNull("properties"))
    else if authenticationType.None? then Err(ArgumentNull("authenticationType"))
    else Ok(Provider(authenticationType.value, properties.value(authenticationType.value)))
  }

  /** What `Equals(object)` may be handed: null, a provider, or an object of another type. */
  datatype Object<O> = Null | ProviderObject(provider: Provider<O>) | OtherObject

  /** `obj as BackOfficeExternalLoginProvider`: null unless the object is a provider. */
  function AsProvider<O>(obj: Object<O>): Option<Provider<O>>
  {
    if obj.ProviderObject? then Some(obj.provider) else None
  }

  /** `Equals(BackOfficeExternalLoginProvider other)`: a non-null provider with the same scheme name. */
  function Equals<O>(p: Provider<O>, other: Option<Provider<O>>): bool
  {
    other.Some? && p.authenticationType == other.value.authenticationType
  }

  /** `Equals(object obj)`: defers to the typed overload after the cast. */
  function EqualsObject<O>(p: Provider<O>, obj: Object<O>): bool
  {
    Equals(p, AsProvider(obj))
  }

  /**
   * `GetHashCode`: `HashCode.Combine` over the scheme name alone. `Combine` is
   * seeded per process, so it is a parameter here.
   */
  function HashCodeOf<O>(p: Provider<O>, combine: string -> int): int
  {
    combine(p.authenticationType)
  }

  /** Two providers are equal iff they differ in nothing but their options. */
  lemma EqualIffSameButOptions<O>(p: Provider<O>, q: Provider<O>)
    ensures Equals(p, Some(q)) <==> p.(options := q.options) == q
  {
  }

  /** Providers built under the same scheme name are equal, whatever options they were built with. */
  lemma SameSchemeProvidersAreEqual<O>(name: string, properties: string -> O, others: string -> O)
    ensures NewProvider(Some(name), Some(properties)).Ok? && NewProvider(Some(name), Some(others)).Ok?
    ensures Equals(NewProvider(Some(name), Some(properties)).value, Some(NewProvider(Some(name), Some(others)).value))
  {
  }

  /** Equality is an equivalence relation on providers. */
  lemma EqualsIsEquivalence<O>(p: Provider<O>, q: Provider<O>, r: Provider<O>)
    ensures Equals(p, Some(p))
    ensures Equals(p, Some(q)) ==> Equals(q, Some(p))
    ensures Equals(p, Some(q)) && Equals(q, Some(r)) ==> Equals(p, Some(r))
  {
  }

  /** `Equals(object)` is false for null and for objects of other types, and otherwise agrees with the typed overload. */
  lemma EqualsObjectCases<O>(p: Provider<O>, obj: Object<O>)
    ensures obj.Null? || obj.OtherObject? ==> !EqualsObject(p, obj)
    ensures obj.ProviderObject? ==> (EqualsObject(p, obj) <==> Equals(p, Some(obj.provider)))
    ensures !Equals(p, None)
  {
  }

  /** Equal providers have equal hash codes, whatever seed `Combine` uses. */
  lemma EqualProvidersHashAlike<O>(p: Provider<O>, q: Provider<O>, combine: string -> int)
    requires Equals(p, Some(q))
    ensures HashCodeOf(p, combine) == HashCodeOf(q, combine)
  {
  }
}
