/**
 * The `.tmp/results/` directory both copies of the pipeline keep their results in: a file holds
 * the JSON text of one result, and reading it back gives the result that was written.
 */
module Store {

  class ResultStore<T> {
    /** The result held by each file of the directory, by path. */
    var files: map<string, T>

    constructor(initial: map<string, T>)
      ensures files == initial
    {
      files := initial;
    }

    /** `fs.writeFileSync(path, JSON.stringify(result))`: the file holds `result`; no other file changes. */
    method Write(path: string, result: T)
      modifies this
      ensures files == old(files)[path := result]
    {
      files := files[path := result];
    }
  }
}
