/** What the resolvers see of the machine they run on: the project layout, the
    component modules that `import()` can load, and the directory listings that
    `fs.readdirSync` returns. */
module Host {
  import opened Values
  import opened Paths
  import opened DisplayRules

  /** An entry of a directory listing read `withFileTypes`. */
  datatype DirEntry = DirEntry(name: string, isFile: bool)

  /** A loaded component module; `getHtml` is absent when the module does not export a
      function of that name. It receives the display rules as they are at the call and the
      `partialData` argument (`None` when the call passes `undefined`). */
  datatype Component = Component(getHtml: Option<(Rules, Option<string>) -> string>)

  /** `root` is the project directory (the directory of `criticalPaths.js`, and the parent
      of the earlier resolver's own directory); `cwd` is the process's working directory;
      `modules` maps the resolved file of each loadable module to it; `dirs` maps each
      argument `readdirSync` accepts to its listing. */
  datatype Environment = Environment(
    root: Segments,
    cwd: Segments,
    modules: map<Segments, Component>,
    dirs: map<string, seq<DirEntry>>)
}
