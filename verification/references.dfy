/**
 * `ensure_resource_reference`, shared by the DB parameter group and DB
 * cluster parameter group helpers, which differ only in the plural name of
 * the references they build.
 */
module References {
  import opened Wrappers

  /** A Kubernetes custom resource reference. */
  datatype Reference = Reference(group: string, version: string, plural: string, name: string, namespace: string)

  /**
   * The argument: a reference already (it has a namespace), a dict whose
   * "metadata" entry (if any) is a string dict, or some other value.
   */
  datatype RefOrDict =
    | Ref(ref: Reference)
    | Dict(metadata: Option<map<string, string>>)
    | OtherValue

  const DefaultNamespace := "default"

  /** Python truthiness of an optional string: present and not empty. */
  predicate Truthy(s: Option<string>) {
    s.Some? && s.value != ""
  }

  /** The name found at metadata.name, if the argument is a dict that has one. */
  function MetadataName(input: RefOrDict): (n: Option<string>)
    ensures n.Some? <==> input.Dict? && input.metadata.Some? && "name" in input.metadata.value
    ensures n.Some? ==> n.value == input.metadata.value["name"]
  {
    if input.Dict? && input.metadata.Some? && "name" in input.metadata.value then
      Some(input.metadata.value["name"])
    else
      None
  }

  /**
   * A reference is returned as it is; otherwise the name is the explicit
   * `resourceName` if it is truthy, else metadata.name; without a truthy
   * name the argument is returned as it is, and with one a reference in the
   * default namespace is built.
   */
  function EnsureReference(plural: string, group: string, version: string,
                           input: RefOrDict, resourceName: Option<string>): (r: RefOrDict)
    // a reference is returned unchanged
    ensures input.Ref? ==> r == input
    // an explicit name takes priority
    ensures !input.Ref? && Truthy(resourceName) ==>
              r == Ref(Reference(group, version, plural, resourceName.value, DefaultNamespace))
    // metadata.name is used only when no explicit name is given
    ensures !input.Ref? && !Truthy(resourceName) && Truthy(MetadataName(input)) ==>
              r == Ref(Reference(group, version, plural, MetadataName(input).value, DefaultNamespace))
    // with no usable name the argument comes back unchanged
    ensures !input.Ref? && !Truthy(resourceName) && !Truthy(MetadataName(input)) ==> r == input
    // whatever is built names a non-empty resource of the given kind in the default namespace
    ensures !input.Ref? && r.Ref? ==>
              r.ref.plural == plural && r.ref.namespace == DefaultNamespace && r.ref.name != ""
  {
    if input.Ref? then input
    else
      var name := if !Truthy(resourceName) && MetadataName(input).Some? then MetadataName(input) else resourceName;
      if !Truthy(name) then input
      else Ref(Reference(group, version, plural, name.value, DefaultNamespace))
  }

  /** Ensuring a reference twice, with the same explicit name, changes nothing more. */
  lemma EnsureReferenceIdempotent(plural: string, group: string, version: string,
                                  input: RefOrDict, resourceName: Option<string>)
    ensures var once := EnsureReference(plural, group, version, input, resourceName);
            EnsureReference(plural, group, version, once, resourceName) == once
  {
  }
}
