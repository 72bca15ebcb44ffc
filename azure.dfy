/** The Azure region filters of the templates (generator/filters_azure.go):
    a region name looked up in the table of short codes or in the table of
    display names. */
module AzureRegions {
  /** Region name to its short code. */
  const RegionShort: map<string, string> := map[
    "eastasia" := "ea",
    "southeastasia" := "sea",
    "centralus" := "cus",
    "eastus" := "eus",
    "eastus2" := "eus2",
    "westus" := "wus",
    "northcentralus" := "ncus",
    "southcentralus" := "scus",
    "northeurope" := "ne",
    "westeurope" := "we",
    "japanwest" := "jw",
    "japaneast" := "je",
    "brazilsouth" := "bs",
    "australiaeast" := "ae",
    "australiasoutheast" := "ase",
    "southindia" := "si",
    "centralindia" := "ci",
    "westindia" := "wi",
    "canadacentral" := "cc",
    "canadaeast" := "ce",
    "uksouth" := "us",
    "ukwest" := "uw",
    "westcentralus" := "wc",
    "westus2" := "wus2",
    "koreacentral" := "kc",
    "koreasouth" := "ks",
    "francecentral" := "fc",
    "francesouth" := "fs",
    "australiacentral" := "ac",
    "australiacentral2" := "ac2",
    "southafricanorth" := "san",
    "southafricawest" := "saw"
  ]

  /** Region name to its display name. */
  const RegionLong: map<string, string> := map[
    "eastasia" := "East Asia",
    "southeastasia" := "Southeast Asia",
    "centralus" := "Central US",
    "eastus" := "East US",
    "eastus2" := "East US 2",
    "westus" := "West US",
    "northcentralus" := "North Central US",
    "southcentralus" := "South Central US",
    "northeurope" := "North Europe",
    "westeurope" := "West Europe",
    "japanwest" := "Japan West",
    "japaneast" := "Japan East",
    "brazilsouth" := "Brazil South",
    "australiaeast" := "Australia East",
    "australiasoutheast" := "Australia Southeast",
    "southindia" := "South India",
    "centralindia" := "Central India",
    "westindia" := "West India",
    "canadacentral" := "Canada Central",
    "canadaeast" := "Canada East",
    "uksouth" := "UK South",
    "ukwest" := "UK West",
    "westcentralus" := "West Central US",
    "westus2" := "West US 2",
    "koreacentral" := "Korea Central",
    "koreasouth" := "Korea South",
    "francecentral" := "France Central",
    "francesouth" := "France South",
    "australiacentral" := "Australia Central",
    "australiacentral2" := "Australia Central 2",
    "southafricanorth" := "South Africa North",
    "southafricawest" := "South Africa West"
  ]

  /** A template filter failure: the filter that failed and why. */
  datatype FilterError = FilterError(sender: string, message: string)

  /** A filter's answer: the value, or the failure. */
  datatype FilterResult = Value(text: string) | Failed(error: FilterError)

  const RegionNotFound := "region not found"

  /** Go's filterAzureRegionShort. */
  function FilterAzureRegionShort(region: string): (r: FilterResult)
    ensures r.Value? <==> region in RegionShort
    ensures r.Value? ==> r.text == RegionShort[region]
    ensures r.Failed? ==> r.error == FilterError("filter:azure_region_short", RegionNotFound)
  {
    if region in RegionShort then Value(RegionShort[region])
    else Failed(FilterError("filter:azure_region_short", RegionNotFound))
  }

  /** Go's filterAzureRegionLong. */
  function FilterAzureRegionLong(region: string): (r: FilterResult)
    ensures r.Value? <==> region in RegionLong
    ensures r.Value? ==> r.text == RegionLong[region]
    ensures r.Failed? ==> r.error == FilterError("filter:azure_region_long", RegionNotFound)
  {
    if region in RegionLong then Value(RegionLong[region])
    else Failed(FilterError("filter:azure_region_long", RegionNotFound))
  }

  /** The two tables know the same regions, so a region has a short code
      exactly when it has a display name. */
  lemma SameRegions()
    ensures RegionShort.Keys == RegionLong.Keys
  {
  }

  /** West Europe in both tables. */
  lemma WestEurope()
    ensures FilterAzureRegionShort("westeurope") == Value("we")
    ensures FilterAzureRegionLong("westeurope") == Value("West Europe")
  {
  }

  /** A name missing from the tables fails in both filters. */
  lemma UnknownRegion(region: string)
    requires region !in RegionShort
    ensures FilterAzureRegionShort(region).Failed? && FilterAzureRegionLong(region).Failed?
    ensures FilterAzureRegionLong(region).error.message == RegionNotFound
  {
    SameRegions();
  }
}
