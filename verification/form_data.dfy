/**
 * The flat settings record stored under the option `docgen_implementation_settings`
 * by the activation hook and by both admin pages, and the submitted form
 * fields they read it from.
 */
module FormData {
  import opened Results

  /** The flat option written by the activation hook and by the two settings forms. */
  datatype FlatSettings = FlatSettings(tempDir: string, templateDir: string, outputFormat: string, debugMode: bool)

  /** Submitted form fields (`$_POST`), name to value. */
  type Form = map<string, string>

  /** `$data[key] ?? default`. */
  function Field(data: Form, key: string, default: string): (r: string)
    ensures key in data ==> r == data[key]
    ensures key !in data ==> r == default
  {
    if key in data then data[key] else default
  }
}
