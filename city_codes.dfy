/** The table of Agoda city codes for the cities of Bangladesh the app knows,
    and the lookup that normalises a city name before reading the table. */
module CityCodes {
  import opened Values
  import opened Text

  /** `CITY_CODES` */
  const Table: map<string, string> := map[
    "dhaka" := "1390",
    "chittagong" := "512855",
    "khulna" := "513017",
    "rajshahi" := "671813",
    "sylhet" := "513022",
    "barisal" := "700812",
    "cox's bazar" := "671817"
  ]

  /** `city_name.lower().strip()` */
  function Normalize(cityName: string): (name: string)
    ensures IsStripped(name)
    ensures HasNoUpper(name)
  {
    StripLowerCommute(cityName);
    Strip(Lower(cityName))
  }

  /** `get_agoda_city_code`: the code of a known city; a `ValueError` naming
      the normalised name otherwise. */
  function GetAgodaCityCode(cityName: string): (r: Result<string, PyError>)
    ensures r.Success? <==> Normalize(cityName) in Table
    ensures r.Success? ==> r.value == Table[Normalize(cityName)]
    ensures r.Failure? ==> r.error == ValueError("City code not found for: " + Normalize(cityName))
  {
    var name := Normalize(cityName);
    if name !in Table then Failure(ValueError("City code not found for: " + name))
    else Success(Table[name])
  }

  lemma LowerOfLower(s: string)
    requires HasNoUpper(s)
    ensures Lower(s) == s
  {
    forall i | 0 <= i < |s|
      ensures Lower(s)[i] == s[i]
    {
    }
  }

  lemma NormalFormFixed(k: string)
    requires HasNoUpper(k) && IsStripped(k)
    ensures Normalize(k) == k
  {
    LowerOfLower(k);
    StrippedFixed(k);
  }

  /** No key of the table has a capital letter or surrounding whitespace. */
  lemma KeysPlain(k: string)
    requires k in Table
    ensures HasNoUpper(k) && IsStripped(k)
  {
  }

  /** Every key of the table is already in normal form. */
  lemma KeysNormalized(k: string)
    requires k in Table
    ensures Normalize(k) == k
  {
    KeysPlain(k);
    NormalFormFixed(k);
  }

  /** Each known city, spelt as in the table, yields its own code. */
  lemma KnownCityCodes(k: string)
    requires k in Table
    ensures GetAgodaCityCode(k) == Success(Table[k])
  {
    KeysNormalized(k);
  }

  /** The lookup ignores letter case and surrounding whitespace: a known city
      however capitalised, with any padding, yields that city's code. */
  lemma CaseAndPaddingIgnored(before: string, name: string, after: string, k: string)
    requires AllSpace(before) && AllSpace(after)
    requires k in Table && Lower(name) == k
    ensures GetAgodaCityCode(before + name + after) == Success(Table[k])
  {
    KeysNormalized(k);
    assert IsStripped(k) by {
      assert Strip(Lower(k)) == k;
    }
    LowerConcat(before + name, after);
    LowerConcat(before, name);
    LowerKeepsSpace(before);
    LowerKeepsSpace(after);
    StripPadded(Lower(before), k, Lower(after));
  }
}
