# QPM build script: version and Windows resource model

This project models the Cargo build script `build.rs` of the Quest Package
Manager (QPM) command-line tool. Before the `qpm` binary is compiled, the
script optionally emits git metadata for the program. Then it reads the
target operating system. Only when the target is exactly `windows` does it
do three things. It asks Cargo to rerun it whenever `Cargo.toml` changes. It
derives a four-part Windows version from the package version. It fills in
and compiles a Windows resource with the tool's icon, names and versions.

The model has four modules:

- `Wrappers`: an `Option` datatype.
- `Version`: Rust's `str::split` with a character predicate (`Split`), the
  base version (the package version cut at its first `-` or `+`) and the
  Windows version (the base version followed by `.0`).
- `Resource`: the resource builder as a class whose setters update a
  property map, and the descriptor the script is meant to produce.
- `BuildScript`: `main` as one method from its inputs to an `Outcome`. It
  either finishes with the printed directives and the compiled descriptor,
  or panics with the directives printed so far and the reason.

The environment is taken as inputs, and printed lines become a sequence of
directive strings. The inputs are the value of `CARGO_CFG_TARGET_OS` (absent
or a string) and the package version. Two outside steps are also inputs: the
result of the git metadata step, and whether the resource compiler succeeds.

The empty package version is handled as the code handles it. A split always
yields a first piece, so the `unwrap` after it cannot fail. The empty version
gives the base version `""` and the Windows version `".0"`, with no abort.
The script has no check for an empty version, and neither does the model
(`Version.ExampleEmpty` states the empty case).

## Model

| member | source | states |
|---|---|---|
| `Version.IsVersionSeparator` | build.rs:25 | the separator test of the split closure is exactly `c == '-' || c == '+'` |
| `Version.Split` | build.rs:24-25 | splitting always yields at least one piece, even for the empty string |
| `Version.SplitPiecesClean` | build.rs:24-25 | no piece of a split contains a separator |
| `Version.SplitFirstPiece` | build.rs:24-26 | the first piece, the one `next()` returns, is a prefix of the input that ends at its first separator or at its end |
| `Version.SplitAppend` | build.rs:24-25 | splitting a string at one of its separators splits the two sides independently and concatenates their pieces |
| `Version.SplitJoin` | build.rs:24-25 | splitting loses only the separators: there is one more piece than separators, and joining the pieces with the separators gives the input back |
| `Version.BaseVersion` | build.rs:24-27 | the base version is a prefix of the package version, contains no `-` or `+`, and ends where the first `-` or `+` stands or at the end of the version; the `unwrap` is proved never to fail |
| `Version.BaseVersionUnique` | build.rs:24-27 | any prefix with those three properties is the base version, so they characterise it completely |
| `Version.BaseVersionIdempotent` | build.rs:24-27 | stripping an already stripped version leaves it unchanged |
| `Version.BaseVersionOfSemVer` | build.rs:21-27 | for a version `core[-pre][+meta]` whose core has no `-` or `+`, the base version is the core, whichever optional parts are present |
| `Version.WinVersion` | build.rs:29 | the Windows version is two characters longer than the base version, starts with it, and has the base version's dot fields followed by one more field `0` |
| `Version.WinVersionOfNumericCore` | build.rs:21-29 | for a package version `X.Y.Z[-pre][+meta]` with numeric X, Y and Z, the Windows version has exactly the four fields X, Y, Z and `0` |
| `Version.ExamplePreReleaseAndMetadata` | build.rs:21-29 | `1.2.3-alpha+abc123`, the input named in the comment at build.rs:21, gives the base `1.2.3` named in the comment at build.rs:27, and the Windows version `1.2.3.0` (the comment at build.rs:29 shows a different version, `1.5.1.0`) |
| `Version.ExampleRelease` | build.rs:24-29 | `1.2.3` gives base `1.2.3` and Windows version `1.2.3.0` |
| `Version.ExampleEmpty` | build.rs:24-29 | the empty version is not rejected: it gives base `""` and Windows version `.0` |
| `Resource.WindowsResource.constructor` | build.rs:31 | a new resource has no icon and no properties |
| `Resource.WindowsResource.SetIcon` | build.rs:32 | sets the icon and leaves the properties unchanged |
| `Resource.WindowsResource.Set` | build.rs:33-39 | sets one property, replacing an earlier value of the same name, and leaves the icon and every other property unchanged |
| `Resource.ScriptDescriptor` | build.rs:31-39 | the intended descriptor has the icon `icon.ico`, exactly the seven fields CompanyName, FileDescription, FileVersion, InternalName, OriginalFilename, ProductName and ProductVersion, and FileVersion and ProductVersion both equal to the Windows version |
| `Resource.Populate` | build.rs:31-39 | the script's eight setter calls on a fresh resource leave exactly the intended descriptor |
| `BuildScript.RunBuildScript` | build.rs:7-44 | a failed git step panics before anything else; an unset target OS panics before any Windows work; a target other than exactly `windows` prints nothing more, builds no resource and succeeds; on `windows` the rerun directive for `Cargo.toml` is printed, and then either the compiler fails and the script panics or it succeeds with the descriptor for the Windows version of the package version; a resource is produced if and only if the run is a successful Windows run |

## Left out

- `color_eyre::install()` (build.rs:4) is left out. It installs an error-report handler from a library and has no logic of its own; its failure would return an error before any other step.
- The git metadata step (build.rs:7-15) is modelled only by its result: compiled out, the directives it printed, or its failure. What `vergen` emits is not modelled.
- `WindowsResource::compile` (build.rs:41) is modelled only by its success or failure, given as an input. The resource compiler and the object file it writes are not modelled.
- `Resource.WindowsResource.constructor` starts with no properties. The `winresource` crate's own constructor may pre-fill properties from Cargo's environment; that crate is not part of this model, so `ScriptDescriptor` describes the fields the script sets, not defaults the library may add.
- `BuildScript.RunBuildScript` takes the script's output to be the git directives and its own `println!` only. On success the crate's `compile` may print link directives of its own; that crate is not part of this model.
- `Resource.WindowsResource.SetIcon` replaces a single icon. The crate's `set_icon` may add to a list of icons instead; the script calls it once, so its outcome does not depend on the difference.
- Environment reads (`std::env::var`, `env!`) and `println!` are inputs and a sequence of directive strings. An environment variable holding invalid Unicode is treated like an unset one; both make the `unwrap` panic.
- No semantic-version validation is modelled, because the script does none beyond the split.
