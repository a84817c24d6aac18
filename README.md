# cdrive-api storage routes, modelled in Dafny

cdrive-api is an Express back end for a small cloud drive. Each tenant `id`
owns a directory `<storage>/<id>`, called the tenant root here. This project
models the parts of `routes/index.js` that hold real logic, and proves what
they compute.

- **Full listing** (`GET /directory/:id`): a walk from the tenant root with an
  explicit stack of `TreeNode`s.
  - It pops a node and lists its entries.
  - For every entry it appends a child node `<parent.path>/<name>` holding the
    entry's base name, MIME type, mtime and size.
  - It pushes the children that are directories.
  - The finished root is sent as JSON.
- **Upload-target search** (`POST /file/upload/:id/:dir`): the same walk with a
  name search added.
  - Every entry named `:dir` overwrites the target path. There is no `break`
    inside the listing, and no check that the match is a directory.
  - After each listing, the walk stops if the target has moved away from the
    root.
  - `:dir` equal to `"null"` means the root.
- **Rename target** (`POST /file/rename`, `POST /directory/rename`): the path is
  split on `/` and its last component dropped. The rest is rejoined with
  `Array.prototype.toString`, which joins with `,`. Every `,` then becomes `/`,
  and `/<newName>` is appended.
- **Directory add and rename** (`POST /directory/add`, `POST /directory/rename`):
  one existence check, then `mkdirSync` or `renameSync`, answering `"created"`,
  `"directory-exists"`, `"renamed"` or `"directory-name-exists"`, or 500 when
  the file-system call throws.

## How it is modelled

**The storage medium is a value.** `Storage.Entry` is a `File` or a `Dir`
holding its listing in the order the medium reports it.
- `readdirSync` on a node's path returns the listing of the entry the node was
  made for.
- `Storage.Frame` pairs a path with that listing.
- `Storage.Order` is the order in which a LIFO walk pops directories: the
  frame itself, then its directory children, the last-listed first, each
  completely before the one listed before it.
- `Storage.DirFrames` is an independent pre-order enumeration of the same
  directories.

**The full listing** is `TreeListing.ListDirectory`.
- Its nodes live in an arena (`seq<TreeNode>`); a node's `children` are arena
  indices, standing for the object references of the source. The handler
  appends to a node's `children` after that node is already reachable from
  the root, and the arena keeps that aliasing explicit.
- The method is proved against `TreeListing.Listing`, a recursive definition
  of the JSON document. It also returns the sequence of directories it
  expanded, proved equal to `Storage.Order`.

**The upload search** is `UploadLocator.UploadTarget`.
- It is proved against `UploadLocator.Locate`: the first directory in
  `Storage.Order` whose listing names `:dir`.
- It also returns the listings it read.
- The source's own comment calls the target a "specific upload directory"
  (routes/index.js:29), and the parameter is named `searchDir`. Yet the code
  compares names only (routes/index.js:42), so a file with the searched name
  is chosen just the same. The model follows the code (`UploadLocator.MatchMayBeAFile`).

**Directory add and rename** act on `DirectoryOps.Store`.
- The store keeps the sets of paths that exist as directories and as files.
- A rename moves the entry and everything below it (`DirectoryOps.Moved`).
- Only the directory rename checks the target for existence
  (routes/index.js:186). The file rename handler (routes/index.js:96-99) calls
  `renameSync` with no existence check.
- The invariant `DirectoryOps.Consistent` says no path is both a file and a
  directory, and every path sits in an existing directory.

## Model

| member | source | states |
|---|---|---|
| TreeListing.ListDirectory | routes/index.js:132-158 | The walk terminates. The document it sends is exactly `Listing(rootDir, root, mime)`. The directories it expands, in order, are exactly `Order` of the tenant root. |
| TreeListing.ExpandListing | routes/index.js:139-154 | One pass over a popped node's listing appends one new child node per entry, in listing order. Each child has path `<parent>/<name>`, its metadata, and no children yet. The directory entries among them are returned for pushing, in listing order. No other node changes. |
| TreeListing.RenderIsNodeDoc | routes/index.js:214-224 | Once every node of the arena holds one correct child per listed entry, serialising a node gives the recursive document of its path and listing. |
| TreeListing.ListingPathsAreStoragePaths | routes/index.js:141-152 | The node paths of the listing are exactly the root and every `<root>/<n1>/.../<nk>` formed by a chain of entries of the storage tree. Both directions are proved. |
| TreeListing.ListingPathsDistinct | routes/index.js:141-152 | For a storage tree whose names are nonempty, slash-free and distinct within each directory, no two nodes of the listing have the same path. The pre-order list of node paths has no repeats and holds exactly the node paths of the document. |
| TreeListing.ListingShaped | routes/index.js:141-153 | For a storage tree with nonempty, slash-free, distinct names, every node of the listing satisfies four things. Its `k`th child is at `<path>/<name>` of the `k`th listed entry. That child's `file.name` is the entry's name. The child carries the entry's MIME type, mtime and size. Only directory entries have children. The root has no `file`. |
| TreeListing.NodeDocShaped | routes/index.js:141-153 | The same node-by-node shape, for the document of any node. |
| TreeListing.Basename | routes/index.js:144 | Posix `path.basename`: trailing `/` are dropped and the last segment is returned, which never contains `/`. `BasenameOfChild` gives its value on a child path. |
| TreeListing.BasenameOfChild | routes/index.js:142-144 | `path.basename` of `<parent>/<name>` is `name` when `name` is nonempty and has no `/`. |
| Storage.OrderIsPermutationOfDirectories | routes/index.js:135-153 | The walk's expansion order is a permutation of the reference enumeration of the tree's directories. Every directory is expanded exactly once, and no file is ever expanded. |
| Storage.OrderOfChildFrames | routes/index.js:141-153 | Popping the frames one listing pushed, in listing order, gives them last-pushed first, each subtree complete before the next. |
| Storage.OrderOfStackAppend | routes/index.js:135-152 | Everything pushed on top of a stack is popped before anything already on it. |
| Storage.OrderExtendsRoot | routes/index.js:141-142 | Every path the walk expands begins with the root's path. |
| Storage.MentionsIffExpandedLists | routes/index.js:38-42 | Some entry anywhere in the tree has a given name exactly when some listing the walk expands holds it. |
| UploadLocator.UploadTarget | routes/index.js:27-55 | The target equals `Locate`. For `"null"`, no listing is read. Otherwise the listings read are the expansion order up to and including the first directory holding a match; with no match, the whole order is read. |
| UploadLocator.ScanListing | routes/index.js:40-50 | After one listing, the target is the path of the last entry named `:dir` in listing order. If no entry has that name, the target is unchanged. The directory entries are pushed in listing order. |
| UploadLocator.FirstListing | routes/index.js:51-52 | The stopping directory is the first in expansion order whose listing names `:dir`. None is found exactly when no expanded listing names it. |
| UploadLocator.LastListed | routes/index.js:40-42 | Within one listing, the match kept is the last entry with the name. None is found exactly when the listing lacks the name. |
| UploadLocator.FallbackIffAbsent | routes/index.js:27-51 | For `:dir` other than `"null"`, the target is the tenant root exactly when no entry of the tree has that name. |
| UploadLocator.FoundInFirstListingDirectory | routes/index.js:40-52 | Suppose the target is not the root. Then it is `<p>/<:dir>` for an expanded directory `p` whose listing holds that name, and no directory expanded before `p` holds it. |
| UploadLocator.MatchMayBeAFile | routes/index.js:42-47 | A file with the searched name is chosen as the target too. |
| UploadLocator.ShallowMatchInRootWins | routes/index.js:34-52 | Suppose the root lists a directory `a` and a directory `docs`, and `a` lists its own `docs`. Then `u1/docs` wins, because the root's listing is read first and `u1/a/docs` is never looked at. |
| UploadLocator.LastListedSiblingWins | routes/index.js:34-52 | Suppose `b/docs` and `a/docs` exist, with `b` listed first. Then `u1/a/docs` wins: across directories, LIFO order decides, not listing order. |
| RenamePath.RenameTarget | routes/index.js:96-98 | Split on `/`, drop the last part, join with `,`, turn every `,` into `/`, append `/<newName>`; the result always ends in `/<newName>`. `RenameTargetShape` gives its meaning. The directory rename handler repeats the computation at lines 183-185. |
| RenamePath.Split | routes/index.js:183 | `split("/")` gives at least one part, and no part contains the separator. |
| RenamePath.JoinSplit | routes/index.js:183-184 | Joining the parts of a split with the same separator gives back the string. |
| RenamePath.SplitAround | routes/index.js:183 | Splitting `a/b` gives the parts of `a` followed by the parts of `b`. |
| RenamePath.ReplaceJoin | routes/index.js:184-185 | Joining with `,` and then replacing every `,` by `/` equals joining with `/` and then replacing every `,` by `/`. |
| RenamePath.RenameTargetShape | routes/index.js:96-98 | The target is the part of the path before its last `/`, with every `,` turned into `/`, then `/<newName>`. A path with no `/` gives `/<newName>`. The directory rename handler repeats the same computation at lines 183-185. |
| RenamePath.RenameTargetIsSibling | routes/index.js:183-185 | For a path with a `/` and no `,`, the target is the prefix before the last `/`, then `/<newName>`. |
| RenamePath.RenameTargetWithoutSlash | routes/index.js:183-185 | A path without `/` is renamed to `/<newName>`. |
| RenamePath.CommaBecomesSeparator | routes/index.js:184-185 | Renaming `<dir>/<a>,<b>/<name>` targets `<dir>/<a>/<b>/<newName>`: a comma in a directory name becomes a separator. |
| DirectoryOps.Store.AddDirectory | routes/index.js:166-175 | An existing path answers `"directory-exists"` and nothing changes. Otherwise, if the path's parent is a directory, it answers `"created"` and exactly that directory is added. If the parent is not a directory, it answers 500 and nothing changes. The store stays consistent. |
| DirectoryOps.Store.RenameDirectory | routes/index.js:183-195 | An existing target answers `"directory-name-exists"` and nothing changes. A missing source, a target whose parent is not a directory, or a target below the source answers 500 and nothing changes. Otherwise it answers `"renamed"` and the source's whole subtree moves to the target. The store stays consistent. |
| DirectoryOps.RenamePreservesConsistent | routes/index.js:186-187 | A rename the handler lets through never makes a path both a file and a directory, and never leaves a path without its parent directory. |
| DirectoryOps.MovedPaths | routes/index.js:187 | After a rename, a path exists exactly in two cases: it existed outside the moved entry, or it lies at or below the target and its counterpart below the source existed. |
| DirectoryOps.AddPreservesConsistent | routes/index.js:166-167 | Creating a directory whose parent is a directory keeps the file system consistent. |

## Left out

- Express routing, request parsing, `console.error` logging and the tenant-root prefix from the environment (routes/index.js:1-13). These are transport and configuration.
- Lazy creation of the tenant root, and the handlers going on after a 500 (routes/index.js:19-26, 123-130). The model starts from an existing tenant root.
- The multipart upload through formidable, and the `renameSync` of the uploaded temporary file (routes/index.js:56-76). These are a foreign library and I/O; the model stops at the target directory.
- UploadLocator.UploadTarget: the `children` arrays and empty `file` objects the upload search fills and never reads (routes/index.js:43-45) are not built; the stack holds each directory's path and listing instead.
- `res.download`, `unlinkSync` and the recursive `rmdirSync` of the download and delete handlers. These are thin wrappers over file-system primitives.
- The file rename handler is modelled only up to its target path (`RenamePath.RenameTarget`). Its `renameSync`, which can replace an existing file, is not modelled.
- `mime.lookup` is a function parameter. `statSync(...).mtime` and `.size` are opaque integers carried through unchanged.
- A `readdirSync` or `statSync` that throws mid-walk is not modelled. Examples are a permission error or an entry deleted by a concurrent request. In the model every listing succeeds.
- Symbolic links are not modelled. The storage tree is finite and acyclic, whereas `statSync` follows links. A link to an ancestor makes the walk descend through it until path resolution fails (ELOOP, or ENAMETOOLONG), and the uncaught exception ends the request with an error. The model's tree is acyclic and cannot show this.
- Concurrent requests on the same tenant are not modelled; each handler runs alone against one state.
- TreeListing.ListDirectory: `TreeNode` objects are arena entries indexed by reference, not heap objects, so object identity is modelled but not the JavaScript heap.
- DirectoryOps.Store.AddDirectory, DirectoryOps.Store.RenameDirectory: paths are taken literally. `.`, `..`, repeated and trailing separators are not normalised, and the empty path is an ordinary name. So a rename whose target resolves to an existing directory but is not spelled the same way is not caught. An example is `newName` equal to `""`, `"."` or `".."`, which gives a target such as `/s/u1/`. The code answers `"directory-name-exists"` for it; the model renames.
- DirectoryOps.Store.AddDirectory: `mkdirSync` failures other than a missing or non-directory parent are not modelled, for example permissions or a full disk.
- DirectoryOps.Store.RenameDirectory: `renameSync` failures other than those listed in the model table are not modelled, for example permissions or moving across devices.
