/**
 * The employee list's search box. It sanitizes like the dashboard but
 * tests the sanitized term without trimming it, so a term of white space
 * only is searched here and reloaded on the dashboard.
 */
module EmployeeListPage {
  import opened Models
  import opened SearchTerms
  import DashboardPage

  /**
   * `handleSearch`'s branch: a name search with the sanitized term exactly
   * when the typed value has a character that is not stripped; a reload
   * when sanitizing leaves nothing.
   */
  function SearchRequest(value: string): (q: Request)
    ensures q.SearchByName? <==> exists i :: 0 <= i < |value| && !IsStripped(value[i])
    ensures q.SearchByName? ==> q.term == SanitizeSearchTerm(value)
    ensures q == LoadEmployees <==> SanitizeSearchTerm(value) == ""
  {
    var sanitized := SanitizeSearchTerm(value);
    assert sanitized != "" <==> exists i :: 0 <= i < |value| && !IsStripped(value[i]) by {
      if sanitized != "" {
        assert sanitized[0] in sanitized;
        var i :| 0 <= i < |value| && value[i] == sanitized[0];
      }
      if i :| 0 <= i < |value| && !IsStripped(value[i]) {
        assert value[i] in value;
        assert value[i] in sanitized;
      }
    }
    if sanitized != "" then SearchByName(sanitized) else LoadEmployees
  }

  /** Whenever the dashboard searches for a value, the list searches for it too, with the same term. */
  lemma ListSearchesWhenDashboardDoes(value: string)
    ensures DashboardPage.SearchRequest(value).SearchByName? ==>
              SearchRequest(value) == DashboardPage.SearchRequest(value)
  {
    if DashboardPage.SearchRequest(value).SearchByName? {
      var i :| 0 <= i < |value| && !IsStripped(value[i]) && !IsJsWhiteSpace(value[i]);
    }
  }

  /** A single space is where the pages part: the list searches for it, the dashboard reloads. */
  lemma WhiteSpaceTermDiffers()
    ensures SearchRequest(" ") == SearchByName(" ")
    ensures DashboardPage.SearchRequest(" ") == LoadEmployees
  {
    assert !IsStripped(" "[0]);
    SanitizeIdentity(" ");
  }

  /** The page state `handleSearch` writes: the search box and the shown rows. */
  class EmployeeList {
    var searchTerm: string
    var employees: seq<EmployeeDto>

    constructor ()
      ensures searchTerm == "" && employees == []
    {
      searchTerm := "";
      employees := [];
    }

    /**
     * `handleSearch`: stores the sanitized value in the search box, issues
     * the request `SearchRequest` names and shows what it answers;
     * `searchByName` and `loadEmployees` stand for the server's answers.
     */
    method HandleSearch(value: string, searchByName: string -> seq<EmployeeDto>, loadEmployees: seq<EmployeeDto>)
      returns (q: Request)
      modifies this
      ensures searchTerm == SanitizeSearchTerm(value)
      ensures q == SearchRequest(value)
      ensures employees == if q.SearchByName? then searchByName(q.term) else loadEmployees
    {
      var sanitizedValue := SanitizeSearchTerm(value);
      searchTerm := sanitizedValue;
      if sanitizedValue != "" {
        employees := searchByName(sanitizedValue);
        q := SearchByName(sanitizedValue);
      } else {
        employees := loadEmployees;
        q := LoadEmployees;
      }
    }
  }
}
