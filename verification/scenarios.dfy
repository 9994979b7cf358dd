/** Worked examples: a registry record with one usable id, and how it is dispatched under
    different check-box settings. */
module Scenarios {
  import opened Wrappers
  import opened Catalog
  import Dispatch
  import Text

  const SevenZip: Record :=
    Record("7zip", Some("7-Zip"), None, None, Some("7zip.7zip"), Some("na"), Some(""))

  /** "na" for Chocolatey and an empty download leave only the winget source; the missing
      category becomes "Other". */
  lemma SevenZipEntry()
    ensures EntryOf(SevenZip) == Program("Other", "7-Zip", "", [WingetId("7zip.7zip")])
  {
    assert Text.Lower("na") == "na";
  }

  /** With only Chocolatey checked the entry has no action; with winget checked too, winget wins. */
  lemma SevenZipDispatch()
    ensures Dispatch.ButtonAction(EntryOf(SevenZip), {Choco}) == None
    ensures Dispatch.ButtonAction(EntryOf(SevenZip), {Winget, Choco}) == Some(Dispatch.WingetInstall("7zip.7zip", "7-Zip"))
  {
    SevenZipEntry();
  }
}
