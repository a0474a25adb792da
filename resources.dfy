/**
 * Kubernetes objects as the commands see them: an API group-version, the
 * identifying kind, namespace and name, and the object's body.
 */
module Resources {
  import opened Json

  datatype GroupVersion = GroupVersion(group: string, version: string)

  datatype Object = Object(
    gv: GroupVersion,
    kind: string,
    namespace: string,
    name: string,
    content: map<string, Value>)
}
