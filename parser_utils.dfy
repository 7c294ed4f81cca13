/**
 * internal/parser/utils.go: parent-type inference and the two safe
 * accessors over a decoded JSON object.
 */
module ParserUtils {
  import opened Util
  import opened ParserTypes

  /**
   * DetermineParentType: an explicit "folders/" or "organizations/" prefix
   * decides; otherwise folders sit under an organization, projects with a
   * parent under a folder and resources under a project.
   */
  function DetermineParentType(resourceLevel: string, parentID: string): (r: string)
    ensures HasPrefix(parentID, "folders/") ==> r == "folder"
    ensures !HasPrefix(parentID, "folders/") && HasPrefix(parentID, "organizations/") ==> r == "organization"
    ensures !HasPrefix(parentID, "folders/") && !HasPrefix(parentID, "organizations/") ==>
      && (resourceLevel == "folder" ==> r == "organization")
      && (resourceLevel == "project" ==> r == (if parentID != "" then "folder" else ""))
      && (resourceLevel == "resource" ==> r == "project")
    ensures r == "" <==>
      && !HasPrefix(parentID, "folders/") && !HasPrefix(parentID, "organizations/")
      && resourceLevel != "folder" && resourceLevel != "resource"
      && (resourceLevel == "project" ==> parentID == "")
  {
    if HasPrefix(parentID, "folders/") then "folder"
    else if HasPrefix(parentID, "organizations/") then "organization"
    else if resourceLevel == "folder" then "organization"
    else if resourceLevel == "project" && parentID != "" then "folder"
    else if resourceLevel == "resource" then "project"
    else ""
  }

  /** The table of internal/parser/utils_test.go, including the two legacy cases. */
  lemma DetermineParentTypeTable()
    ensures DetermineParentType("folder", "organizations/123") == "organization"
    ensures DetermineParentType("folder", "folders/456") == "folder"
    ensures DetermineParentType("folder", "123") == "organization"
    ensures DetermineParentType("project", "folders/789") == "folder"
    ensures DetermineParentType("project", "organizations/123") == "organization"
    ensures DetermineParentType("project", "789") == "folder"
    ensures DetermineParentType("resource", "") == "project"
  {
    assert "organizations/123"[..8][0] != "folders/"[0];
    assert "organizations/123"[..14] == "organizations/";
    assert "folders/456"[..8] == "folders/";
    assert "folders/789"[..8] == "folders/";
  }

  /** GetStringFromMap: the string under `key`, or "" when absent or not a string. */
  function GetStringFromMap(data: map<string, JsonValue>, key: string): (r: string)
    ensures key in data && data[key].JString? ==> r == data[key].str
    ensures r != "" ==> key in data && data[key] == JString(r)
  {
    if key in data && data[key].JString? then data[key].str else ""
  }

  /** The string elements of a list, in order, others dropped. */
  function StringElems(items: seq<JsonValue>): (r: seq<string>)
    ensures |r| <= |items|
    ensures forall s :: s in r <==> JString(s) in items
  {
    if |items| == 0 then []
    else (if items[0].JString? then [items[0].str] else []) + StringElems(items[1..])
  }

  lemma {:induction false} StringElemsAppend(items: seq<JsonValue>, x: JsonValue)
    ensures StringElems(items + [x]) == StringElems(items) + (if x.JString? then [x.str] else [])
  {
    if |items| > 0 {
      assert (items + [x])[1..] == items[1..] + [x];
      StringElemsAppend(items[1..], x);
    }
  }

  /** GetListFromMap: the string elements of a list value under `key`, in order. */
  method GetListFromMap(data: map<string, JsonValue>, key: string) returns (result: seq<string>)
    ensures key in data && data[key].JList? ==> result == StringElems(data[key].items)
    ensures !(key in data && data[key].JList?) ==> result == []
  {
    result := [];
    if key in data && data[key].JList? {
      var list := data[key].items;
      var i := 0;
      while i < |list|
        invariant 0 <= i <= |list|
        invariant result == StringElems(list[..i])
      {
        StringElemsAppend(list[..i], list[i]);
        assert list[..i + 1] == list[..i] + [list[i]];
        if list[i].JString? {
          result := result + [list[i].str];
        }
        i := i + 1;
      }
      assert list[..i] == list;
    }
  }
}
