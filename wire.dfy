/**
 * The multipart requests the React frontend sends to the Flask backend.
 * A form field `name_<i>` or file part `fingerprint_<i>` is held under the
 * natural-number key `i`.
 */
module Wire {
  import opened Wrappers

  /** Raw bytes of an image file. */
  type Image = seq<bv8>

  /** An uploaded file part: a browser `File` on the client, a werkzeug `FileStorage` on the server. */
  datatype Upload = Upload(filename: string, content: Image)

  /** Python truthiness of a `FileStorage`: it is false when the part carries no file name. */
  predicate Truthy(u: Upload) {
    u.filename != ""
  }

  /**
   * Body of POST /api/register: `name_<i>` fields, `fingerprint_<i>` files, and the
   * `voter_count` field already read as an integer (None when the field is missing).
   */
  datatype RegisterForm = RegisterForm(names: map<nat, string>, fingerprints: map<nat, Upload>, voterCount: Option<int>)

  /** Body of POST /api/vote: the `name` and `candidate` fields and the `fingerprint` file, each possibly missing. */
  datatype VoteForm = VoteForm(name: Option<string>, fingerprint: Option<Upload>, candidate: Option<string>)
}
