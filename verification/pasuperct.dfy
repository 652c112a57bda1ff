/** The status rule of the Pennsylvania Superior Court scraper: an opinion
    object of the court's JSON feed carries its precedential status in the
    description of its publication type. */
module PaSuperCt {
  import opened Py

  /** A JSON value as the feed's decoder produces it: objects become
      dictionaries, strings strings, and so on. */
  datatype Json =
    | JNull
    | JBool(b: bool)
    | JNum(n: int)
    | JStr(s: string)
    | JArr(items: seq<Json>)
    | JObj(fields: map<string, Json>)

  /** The publication type's description, when the opinion has a publication
      type object holding one. */
  function Description(op: map<string, Json>): Option<Json>
  {
    if "PublicationType" in op && op["PublicationType"].JObj?
       && "Description" in op["PublicationType"].fields
    then Some(op["PublicationType"].fields["Description"])
    else None
  }

  /** `get_status`. A missing publication type or description counts as
      the empty description. A publication type that is present but not an
      object (null, a string, a list, ...) has no `.get`, so the lookup
      raises AttributeError. Otherwise the status is "Unpublished" exactly
      for the description "Non-Precedential", "Published" exactly for
      "Precedential", and "Unknown" for anything else. */
  function GetStatus(op: map<string, Json>): (r: Result<string>)
    ensures r.Raise? <==> "PublicationType" in op && !op["PublicationType"].JObj?
    ensures r.Raise? ==> r.error == AttributeError
    ensures r.Ok? ==> r.value == "Unpublished" || r.value == "Published" || r.value == "Unknown"
    ensures r == Ok("Unpublished") <==> Description(op) == Some(JStr("Non-Precedential"))
    ensures r == Ok("Published") <==> Description(op) == Some(JStr("Precedential"))
    ensures "PublicationType" !in op ==> r == Ok("Unknown")
  {
    var pubType := if "PublicationType" in op then op["PublicationType"] else JObj(map[]);
    if !pubType.JObj? then
      Raise(AttributeError)
    else
      var descr := if "Description" in pubType.fields then pubType.fields["Description"] else JStr("");
      if descr == JStr("Non-Precedential") then Ok("Unpublished")
      else if descr == JStr("Precedential") then Ok("Published")
      else Ok("Unknown")
  }
}
