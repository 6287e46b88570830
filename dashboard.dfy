/**
 * The dashboard's search box: the typed value is sanitized and remembered,
 * then either searched by name or, when nothing but white space is left,
 * answered by reloading the caller's whole list.
 */
module DashboardPage {
  import opened Models
  import opened SearchTerms

  /**
   * `handleSearch`'s branch: a name search with the sanitized term, untrimmed,
   * exactly when the typed value has a character that is neither stripped
   * nor white space; a reload otherwise.
   */
  function SearchRequest(value: string): (q: Request)
    ensures q.SearchByName? <==> exists i :: 0 <= i < |value| && !IsStripped(value[i]) && !IsJsWhiteSpace(value[i])
    ensures q.SearchByName? ==> q.term == SanitizeSearchTerm(value)
  {
    var sanitized := SanitizeSearchTerm(value);
    TrimEmptyIffWhiteSpace(sanitized);
    assert !AllWhiteSpace(sanitized) <==>
           exists i :: 0 <= i < |value| && !IsStripped(value[i]) && !IsJsWhiteSpace(value[i]) by {
      if !AllWhiteSpace(sanitized) {
        var j :| 0 <= j < |sanitized| && !IsJsWhiteSpace(sanitized[j]);
        assert sanitized[j] in sanitized;
        var i :| 0 <= i < |value| && value[i] == sanitized[j];
      }
      if i :| 0 <= i < |value| && !IsStripped(value[i]) && !IsJsWhiteSpace(value[i]) {
        assert value[i] in value;
        var j :| 0 <= j < |sanitized| && sanitized[j] == value[i];
      }
    }
    if Trim(sanitized) != "" then SearchByName(sanitized) else LoadEmployees
  }

  /** The page state `handleSearch` writes: the search box and the shown rows. */
  class Dashboard {
    var searchTerm: string
    var employees: seq<EmployeeDto>

    constructor ()
      ensures searchTerm == "" && employees == []
    {
      searchTerm := "";
      employees := [];
    }

    /**
     * `handleSearch`: stores the sanitized value in the search box, issues
     * the request `SearchRequest` names and shows what it answers;
     * `searchByName` and `loadEmployees` stand for the server's answers.
     */
    method HandleSearch(value: string, searchByName: string -> seq<EmployeeDto>, loadEmployees: seq<EmployeeDto>)
      returns (q: Request)
      modifies this
      ensures searchTerm == SanitizeSearchTerm(value)
      ensures q == SearchRequest(value)
      ensures employees == if q.SearchByName? then searchByName(q.term) else loadEmployees
    {
      var sanitizedValue := SanitizeSearchTerm(value);
      searchTerm := sanitizedValue;
      if Trim(sanitizedValue) != "" {
        employees := searchByName(sanitizedValue);
        q := SearchByName(sanitizedValue);
      } else {
        employees := loadEmployees;
        q := LoadEmployees;
      }
    }
  }
}
