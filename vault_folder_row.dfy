/**
 * One folder row of the vault table. Folder names encode nesting with '/':
 * the row shows the last segment and offers the parent path, joined with
 * " > ", as a tooltip. Its two actions report events to the table.
 */
module VaultFolderRow {
  import opened Text

  datatype Folder = Folder(id: string, name: string)

  /** The events the row reports. */
  datatype VaultItemEvent = EditFolder(item: Folder) | DeleteFolders(items: seq<Folder>)

  /** The segments of a folder name other than the last. */
  function ParentSegments(name: string): (parents: seq<string>)
    ensures |parents| == |Split(name, '/')| - 1
    ensures parents == Split(name, '/')[..|parents|]
  {
    var parts := Split(name, '/');
    parts[..|parts| - 1]
  }

  /** `folderDisplayName`: the segment after the last '/', or the whole name
      without one. */
  function FolderDisplayName(name: string): (r: string)
    ensures '/' !in r
    ensures |r| <= |name| && r == name[|name| - |r|..]
    ensures |r| < |name| ==> name[|name| - |r| - 1] == '/'
  {
    SplitLastIsSuffix(name, '/');
    var parts := Split(name, '/');
    parts[|parts| - 1]
  }

  /** `folderPath`: the parent segments joined with " > ", or "" for a name
      without '/'. */
  function FolderPath(name: string): (r: string)
    ensures '/' !in name ==> r == ""
  {
    var parts := Split(name, '/');
    if |parts| <= 1 then ""
    else Join(parts[..|parts| - 1], " > ")
  }

  /** The parent segments and the displayed name, joined with '/', are the
      folder's name. */
  lemma RejoinRecoversName(name: string)
    ensures Join(ParentSegments(name) + [FolderDisplayName(name)], "/") == name
  {
    var parts := Split(name, '/');
    assert ParentSegments(name) + [FolderDisplayName(name)] == parts;
    JoinSplit(name, '/');
  }

  /** With a '/', the tooltip lists every parent segment. */
  lemma FolderPathOfNested(name: string)
    requires '/' in name
    ensures FolderPath(name) == Join(ParentSegments(name), " > ")
  {
    SplitSingleIffNoSeparator(name, '/');
  }

  lemma {:induction false} JoinEmptyIff(parts: seq<string>, sep: string)
    requires |parts| >= 1 && |sep| > 0
    ensures Join(parts, sep) == "" <==> |parts| == 1 && parts[0] == ""
  {
    if |parts| >= 2 {
      assert |Join(parts, sep)| >= |sep|;
    }
  }

  /** The tooltip is empty exactly when the name has no '/', or has one
      '/' and nothing before it. */
  lemma FolderPathEmptyIff(name: string)
    ensures FolderPath(name) == "" <==> '/' !in name || (|Split(name, '/')| == 2 && Split(name, '/')[0] == "")
  {
    SplitSingleIffNoSeparator(name, '/');
    var parts := Split(name, '/');
    if |parts| > 1 {
      JoinEmptyIff(parts[..|parts| - 1], " > ");
    }
  }

  /** So "no '/' in the name" is not the same as "empty tooltip": a top
      level folder written "/x" has an empty one. */
  lemma LeadingSlashHasEmptyPath()
    ensures '/' in "/x" && FolderPath("/x") == "" && FolderDisplayName("/x") == "x"
  {
    assert "/x" == "" + ['/'] + "x";
    SplitAtFirst("", '/', "x");
  }

  /** The row's `onEvent` output: the events reported so far. */
  class VaultFolderRowComponent {
    var folder: Folder
    var events: seq<VaultItemEvent>

    constructor (folder: Folder)
      ensures this.folder == folder && events == []
    {
      this.folder := folder;
      events := [];
    }

    /** `editFolder`: one event carrying the folder. */
    method EditFolderClicked()
      modifies this`events
      ensures events == old(events) + [EditFolder(folder)]
    {
      events := events + [EditFolder(folder)];
    }

    /** `deleteFolder`: one delete event listing exactly this folder. */
    method DeleteFolderClicked()
      modifies this`events
      ensures events == old(events) + [DeleteFolders([folder])]
    {
      events := events + [DeleteFolders([folder])];
    }
  }
}
