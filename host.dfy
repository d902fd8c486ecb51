/**
 * What the extension receives from its host and from Node's `path` module.
 * Nothing here is interpreted: URIs are plain records, and the three path
 * functions are parameters whose meaning the model never assumes.
 */
module Host {

  /**
   * A `vscode.Uri`: `text` is its `toString()` form, the identity the index
   * is keyed by; `scheme` is `file` for a saved document and something else
   * (such as `untitled`) otherwise; `fsPath` is its file-system path.
   */
  datatype Uri = Uri(text: string, scheme: string, fsPath: string)

  /**
   * `path.dirname`, `path.relative(from, to)` and
   * `vscode.workspace.asRelativePath(uri)`, taken as given functions.
   */
  datatype PathLib = PathLib(
    dirname: string -> string,
    relative: (string, string) -> string,
    asRelativePath: Uri -> string)
}
