/**
 * The Windows resource descriptor that build.rs fills in before handing it
 * to the resource compiler.
 */
module Resource {
  import opened Wrappers

  const IconPath := "icon.ico"
  const CompanyName := "Quest Package Manager"
  const FileDescription := "Quest Package Manager (QPM) is a command-line tool for managing and creating Quest mod projects. It functions as a package manager specifically designed for these projects, simplifying the process of handling mods and their dependencies."
  const InternalName := "qpm"
  const OriginalFilename := "qpm.exe"
  const ProductName := "Quest Package Manager"

  /** The names of the version-information fields the build script sets. */
  const FieldNames: set<string> := {
    "CompanyName", "FileDescription", "FileVersion", "InternalName",
    "OriginalFilename", "ProductName", "ProductVersion"
  }

  /** A finished descriptor, as the resource compiler receives it. */
  datatype Descriptor = Descriptor(icon: Option<string>, properties: map<string, string>)

  /** The resource builder that build.rs mutates one setter call at a time. */
  class WindowsResource {
    var icon: Option<string>
    var properties: map<string, string>

    constructor ()
      ensures icon == None && properties == map[]
    {
      icon := None;
      properties := map[];
    }

    method SetIcon(path: string)
      modifies this
      ensures icon == Some(path)
      ensures properties == old(properties)
    {
      icon := Some(path);
    }

    /** Sets one field, replacing any earlier value of it. */
    method Set(name: string, value: string)
      modifies this
      ensures properties == old(properties)[name := value]
      ensures icon == old(icon)
    {
      properties := properties[name := value];
    }

    function Snapshot(): Descriptor
      reads this
    {
      Descriptor(icon, properties)
    }
  }

  /**
   * The descriptor the build script means to produce for a given Windows
   * version: the fixed icon, exactly the seven named fields, the two version
   * fields equal to the Windows version and the rest the fixed strings.
   */
  function ScriptDescriptor(winVersion: string): (d: Descriptor)
    ensures d.icon == Some(IconPath)
    ensures d.properties.Keys == FieldNames
    ensures d.properties["FileVersion"] == winVersion
    ensures d.properties["ProductVersion"] == d.properties["FileVersion"]
  {
    Descriptor(Some(IconPath), map[
      "CompanyName" := CompanyName,
      "FileDescription" := FileDescription,
      "FileVersion" := winVersion,
      "InternalName" := InternalName,
      "OriginalFilename" := OriginalFilename,
      "ProductName" := ProductName,
      "ProductVersion" := winVersion
    ])
  }

  /**
   * The setter sequence of the build script, run on a fresh resource: what
   * it leaves behind is exactly `ScriptDescriptor(winVersion)`.
   */
  method Populate(winVersion: string) returns (d: Descriptor)
    ensures d == ScriptDescriptor(winVersion)
  {
    var res := new WindowsResource();
    res.SetIcon(IconPath);
    res.Set("CompanyName", CompanyName);
    res.Set("FileDescription", FileDescription);
    res.Set("FileVersion", winVersion);
    res.Set("InternalName", InternalName);
    res.Set("OriginalFilename", OriginalFilename);
    res.Set("ProductName", ProductName);
    res.Set("ProductVersion", winVersion);
    d := res.Snapshot();
  }
}
