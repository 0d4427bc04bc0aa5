/**
 * The records of the icon bot's configuration and data (src/types.ts).
 * Optional fields become `Option`; string unions become enumerations.
 */
module Types {
  import opened Wrappers

  /** An entry of `output.formats`. */
  datatype Format = Svg | React

  datatype ExportType = Named | Default

  /** `output.react`. */
  datatype ReactConfig = ReactConfig(typescript: bool, exportType: ExportType, componentPrefix: Option<string>)

  /** `output`: the target directory, the formats to write, the React settings. */
  datatype OutputConfig = OutputConfig(directory: string, formats: seq<Format>, react: Option<ReactConfig>)

  /** `naming.transform`. */
  datatype NameTransform = Preserve | KebabCase | CamelCase | PascalCase

  /** `naming`: `sanitize` is optional and means "on" unless it is `false`. */
  datatype NamingConfig = NamingConfig(transform: NameTransform, sanitize: Option<bool>)

  /** `git`: only the fields the message and body generators read are kept. */
  datatype GitConfig = GitConfig(commitMessage: Option<string>, prBody: Option<string>)

  /** `svgo`: the plugin list is folded into the optimiser the processor is given. */
  datatype SvgoConfig = SvgoConfig(enabled: bool)

  datatype Config = Config(output: OutputConfig, naming: Option<NamingConfig>, git: GitConfig, svgo: Option<SvgoConfig>)

  /**
   * A node of the Figma document tree. An absent `children` list is modelled as the
   * empty one: the traversal treats the two alike (it iterates over no child either way).
   */
  datatype FigmaNode = FigmaNode(id: string, name: string, nodeType: string, children: seq<FigmaNode>)

  /** One fetched icon. */
  datatype IconData = IconData(name: string, originalName: string, svg: string, nodeId: string)

  datatype SyncError = SyncError(file: string, error: string)

  /** The report of one pass (`SyncResult`): paths written per status, names deleted, per-icon errors. */
  datatype SyncResult = SyncResult(
    added: seq<string>,
    updated: seq<string>,
    deleted: seq<string>,
    unchangedFiles: seq<string>,  // `unchanged` in the source; the word is reserved in Dafny
    errors: seq<SyncError>)
}
