/**
 * The project file (NFun.csproj) as the release script sees it: flat text in
 * which metadata is looked up with a non-greedy tag pattern and rewritten
 * with a greedy one. Reading the file is a parameter: `None` stands for a
 * missing or unreadable file.
 */
module Manifest {
  import opened Wrappers
  import opened Text
  import opened TagSearch
  import opened TagReplace

  /** The sentinel the script shows for any value it could not find ("未知", "unknown"). */
  const Unknown: string := "\U{672A}\U{77E5}"

  const VersionTag: string := "Version"
  const NotesTag: string := "PackageReleaseNotes"

  const PackageIdTag: string := "PackageId"
  const AuthorsTag: string := "Authors"
  const CompanyTag: string := "Company"
  const TitleTag: string := "Title"
  const DescriptionTag: string := "Description"
  const CopyrightTag: string := "Copyright"
  const ProjectUrlTag: string := "PackageProjectUrl"
  const RepositoryUrlTag: string := "RepositoryUrl"
  const TagsTag: string := "PackageTags"
  const LicenseTag: string := "PackageLicenseExpression"

  /**
   * Group 1 of the first match of `<name>(.*?)</name>` in the file, if the
   * file could be read: the text between the leftmost opening tag that has a
   * closing tag after it on its line and the nearest such closing tag.
   */
  function Lookup(content: Option<string>, name: string): Option<string>
  {
    match content
    case None => None
    case Some(c) => Search(c, name)
  }

  /**
   * What a lookup finds: something exactly when the file holds an opening tag
   * with a closing tag after it on the same line, and then the text of the
   * leftmost such pair, up to the nearest closing tag; that text never
   * holds a newline or the closing tag.
   */
  lemma LookupSpec(content: Option<string>, name: string)
    ensures Lookup(content, name).Some? <==> content.Some? && exists i: nat, j: nat :: PairAt(content.value, name, i, j)
    ensures Lookup(content, name).Some? ==> exists i: nat, j: nat ::
      FirstPair(content.value, name, i, j) && Lookup(content, name).value == content.value[i + |OpenTag(name)|..j]
    ensures Lookup(content, name).Some? ==>
      '\n' !in Lookup(content, name).value && !Contains(Lookup(content, name).value, CloseTag(name))
  {
    if content.Some? {
      SearchNone(content.value, name);
      SearchSpec(content.value, name);
      SearchValueShape(content.value, name);
    }
  }

  /**
   * get_current_version: the version and whether it was found. A missing or
   * unreadable file and a file without a version pair both give the sentinel
   * and `false`.
   */
  function GetCurrentVersion(content: Option<string>): (r: (string, bool))
    ensures r.1 <==> content.Some? && exists i: nat, j: nat :: PairAt(content.value, VersionTag, i, j)
    ensures r.1 ==> exists i: nat, j: nat ::
      FirstPair(content.value, VersionTag, i, j) && r.0 == content.value[i + |OpenTag(VersionTag)|..j]
    ensures !r.1 ==> r.0 == Unknown
  {
    LookupSpec(content, VersionTag);
    match Lookup(content, VersionTag)
    case Some(v) => (v, true)
    case None => (Unknown, false)
  }

  /** A looked-up value, or the sentinel. */
  function ValueOrUnknown(found: Option<string>): string
  {
    match found
    case Some(v) => v
    case None => Unknown
  }

  /** The package metadata shown in the release preview; every field starts as the sentinel. */
  class PackageInfo {
    var id: string
    var authors: string
    var company: string
    var title: string
    var description: string
    var copyright: string
    var projectUrl: string
    var repositoryUrl: string
    var tags: string
    var license: string

    constructor ()
      ensures id == Unknown && authors == Unknown && company == Unknown && title == Unknown
      ensures description == Unknown && copyright == Unknown && projectUrl == Unknown
      ensures repositoryUrl == Unknown && tags == Unknown && license == Unknown
    {
      id := Unknown;
      authors := Unknown;
      company := Unknown;
      title := Unknown;
      description := Unknown;
      copyright := Unknown;
      projectUrl := Unknown;
      repositoryUrl := Unknown;
      tags := Unknown;
      license := Unknown;
    }
  }

  /**
   * get_package_info: a fresh record whose fields are set one by one from
   * the values found. A field whose tag is missing, and every field when the
   * file cannot be read, holds the sentinel the record was created with.
   */
  method GetPackageInfo(content: Option<string>) returns (info: PackageInfo)
    ensures fresh(info)
    ensures info.id == ValueOrUnknown(Lookup(content, PackageIdTag))
    ensures info.authors == ValueOrUnknown(Lookup(content, AuthorsTag))
    ensures info.company == ValueOrUnknown(Lookup(content, CompanyTag))
    ensures info.title == ValueOrUnknown(Lookup(content, TitleTag))
    ensures info.description == ValueOrUnknown(Lookup(content, DescriptionTag))
    ensures info.copyright == ValueOrUnknown(Lookup(content, CopyrightTag))
    ensures info.projectUrl == ValueOrUnknown(Lookup(content, ProjectUrlTag))
    ensures info.repositoryUrl == ValueOrUnknown(Lookup(content, RepositoryUrlTag))
    ensures info.tags == ValueOrUnknown(Lookup(content, TagsTag))
    ensures info.license == ValueOrUnknown(Lookup(content, LicenseTag))
    ensures content.None? ==>
      && info.id == Unknown && info.authors == Unknown && info.company == Unknown
      && info.title == Unknown && info.description == Unknown && info.copyright == Unknown
      && info.projectUrl == Unknown && info.repositoryUrl == Unknown && info.tags == Unknown
      && info.license == Unknown
  {
    info := new PackageInfo();
    info.id := ValueOrUnknown(Lookup(content, PackageIdTag));
    info.authors := ValueOrUnknown(Lookup(content, AuthorsTag));
    info.company := ValueOrUnknown(Lookup(content, CompanyTag));
    info.title := ValueOrUnknown(Lookup(content, TitleTag));
    info.description := ValueOrUnknown(Lookup(content, DescriptionTag));
    info.copyright := ValueOrUnknown(Lookup(content, CopyrightTag));
    info.projectUrl := ValueOrUnknown(Lookup(content, ProjectUrlTag));
    info.repositoryUrl := ValueOrUnknown(Lookup(content, RepositoryUrlTag));
    info.tags := ValueOrUnknown(Lookup(content, TagsTag));
    info.license := ValueOrUnknown(Lookup(content, LicenseTag));
  }

  /** The replacement `<name>value</name>` the script substitutes for a tag. */
  function Element(name: string, value: string): string
  {
    OpenTag(name) + value + CloseTag(name)
  }

  /** The text update_csproj_file writes back: the version substitution, then the release-notes one. */
  function UpdatedManifest(content: string, version: string, notes: string): string
  {
    var withVersion := ReplaceAll(content, VersionTag, Element(VersionTag, version));
    ReplaceAll(withVersion, NotesTag, Element(NotesTag, notes))
  }

  /** The project file on disk; `None` when it is missing or cannot be read. */
  class Workspace {
    var manifest: Option<string>

    constructor (initial: Option<string>)
      ensures manifest == initial
    {
      manifest := initial;
    }

    /**
     * update_csproj_file: read the file, substitute the version and then the
     * release notes, write the result back. Opening a missing file raises,
     * which is reported as `false` with the file untouched.
     */
    method UpdateCsprojFile(version: string, notes: string) returns (ok: bool)
      requires '\\' !in version && '\\' !in notes
      modifies this
      ensures ok <==> old(manifest).Some?
      ensures ok ==> manifest == Some(UpdatedManifest(old(manifest).value, version, notes))
      ensures !ok ==> manifest == old(manifest)
    {
      if manifest.None? {
        return false;
      }
      var content := manifest.value;
      content := ReplaceAll(content, VersionTag, Element(VersionTag, version));
      content := ReplaceAll(content, NotesTag, Element(NotesTag, notes));
      manifest := Some(content);
      return true;
    }
  }
}
