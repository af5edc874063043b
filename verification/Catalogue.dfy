/** The entity ranking and the never-restored types that decide overlaps (detection/regex_patterns.py). */
module Catalogue {

  datatype Catalogue = Catalogue(specificity: map<string, nat>, irreversibleTypes: set<string>) {

    /** An unranked type has specificity 0. */
    function Rank(entityType: string): nat {
      if entityType in specificity then specificity[entityType] else 0
    }
  }

  /** The tables the program ships with.  Every theorem holds for an arbitrary catalogue. */
  function Shipped(): Catalogue {
    Catalogue(
      map[
        "API_KEY" := 100,
        "ENTERPRISE_API_KEY" := 100,
        "ENTERPRISE_AWS_KEY" := 99,
        "ENTERPRISE_GITHUB_TOKEN" := 99,
        "EMAIL_ADDRESS" := 90,
        "TAX_ID_DE" := 89,
        "PERSONAL_AUSWEIS" := 88,
        "KVNR" := 87,
        "SVNR_DE" := 86,
        "HR_NUMBER" := 84,
        "AKTENZEICHEN" := 83,
        "DATE_OF_BIRTH" := 82,
        "SITE_ID" := 81,
        "PHONE_NUMBER" := 80,
        "ACCOUNT_NUMBER_DE" := 79,
        "TAX_ID_DE_UNVERIFIED" := 72,
        "IBAN_UNVERIFIED" := 71,
        "CREDIT_CARD" := 75,
        "IBAN_DE" := 73,
        "IBAN_CODE" := 70,
        "US_SSN" := 65,
        "URL" := 55,
        "IP_ADDRESS" := 50,
        "STREET_ADDRESS_DE" := 45,
        "POSTCODE_CITY_DE" := 44,
        "PERSON_NAME_DE" := 41,
        "PERSON" := 40,
        "DATE_DE" := 36,
        "DATE_TIME" := 35,
        "LOCATION" := 30,
        "ORGANIZATION" := 25
      ],
      {
        "API_KEY",
        "ENTERPRISE_API_KEY",
        "ENTERPRISE_AWS_KEY",
        "ENTERPRISE_GITHUB_TOKEN",
        "ENTERPRISE_INTERNAL_HOST",
        "AWS_ACCESS_KEY",
        "GITHUB_TOKEN",
        "PRIVATE_KEY"
      })
  }

  // ----- The shipped ranking, from the most to the least specific -----

  lemma SecretsRankFirst()
    ensures var r := Shipped();
            && r.Rank("API_KEY") == r.Rank("ENTERPRISE_API_KEY") > r.Rank("ENTERPRISE_AWS_KEY")
            && r.Rank("ENTERPRISE_AWS_KEY") == r.Rank("ENTERPRISE_GITHUB_TOKEN") > r.Rank("EMAIL_ADDRESS")
  {
  }

  lemma OfficialNumbersRankNext()
    ensures var r := Shipped();
            && r.Rank("EMAIL_ADDRESS") > r.Rank("TAX_ID_DE") > r.Rank("PERSONAL_AUSWEIS") > r.Rank("KVNR")
            && r.Rank("KVNR") > r.Rank("SVNR_DE") > r.Rank("HR_NUMBER") > r.Rank("AKTENZEICHEN")
  {
  }

  lemma ContactsFollow()
    ensures var r := Shipped();
            && r.Rank("AKTENZEICHEN") > r.Rank("DATE_OF_BIRTH") > r.Rank("SITE_ID") > r.Rank("PHONE_NUMBER")
            && r.Rank("PHONE_NUMBER") > r.Rank("ACCOUNT_NUMBER_DE")
  {
  }

  lemma CardsAndAccountsFollow()
    ensures var r := Shipped();
            && r.Rank("ACCOUNT_NUMBER_DE") > r.Rank("CREDIT_CARD") > r.Rank("IBAN_DE") > r.Rank("TAX_ID_DE_UNVERIFIED")
            && r.Rank("TAX_ID_DE_UNVERIFIED") > r.Rank("IBAN_UNVERIFIED") > r.Rank("IBAN_CODE") > r.Rank("US_SSN")
            && r.Rank("US_SSN") > r.Rank("URL") > r.Rank("IP_ADDRESS")
  {
  }

  lemma NamesAndPlacesRankLast()
    ensures var r := Shipped();
            && r.Rank("IP_ADDRESS") > r.Rank("STREET_ADDRESS_DE") > r.Rank("POSTCODE_CITY_DE") > r.Rank("PERSON_NAME_DE")
            && r.Rank("PERSON_NAME_DE") > r.Rank("PERSON") > r.Rank("DATE_DE") > r.Rank("DATE_TIME")
            && r.Rank("DATE_TIME") > r.Rank("LOCATION") > r.Rank("ORGANIZATION") > 0
  {
  }
}
