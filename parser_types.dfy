/**
 * The normalized grant every stage consumes (IAMBinding), the resource
 * definition that says how to read one from a Terraform resource, and the
 * decoded-JSON values the plan reader inspects.
 */
module ParserTypes {

  /** One role granted to a list of members on one resource. */
  datatype IAMBinding = IAMBinding(
    resourceID: string,
    resourceType: string,
    resourceLevel: string,   // "organization", "folder", "project" or "resource"
    role: string,
    members: seq<string>,
    parentID: string,
    parentType: string,
    terraformAddr: string)

  /** Attribute names under which a resource type keeps the IAM fields. */
  datatype FieldMapping = FieldMapping(
    resourceID: string,
    role: string,
    member: string,
    members: string,
    parent: string)

  datatype ResourceDefinition = ResourceDefinition(
    rtype: string,
    displayName: string,
    resourceLevel: string,
    fieldMappings: FieldMapping)

  /**
   * A decoded JSON value, as far as the reader distinguishes it: a string, a
   * list, or anything else (number, boolean, null, object).
   */
  datatype JsonValue = JString(str: string) | JList(items: seq<JsonValue>) | JOther
}
