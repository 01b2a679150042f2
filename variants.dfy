/**
 * The repository ships the web front-end twice: `main.go` at the top level and
 * another copy in `cmd/web/main.go`. Within what is modelled, the two differ in
 * three places (the playbook header, the columns `updateTask` writes, and when a
 * run counts as failed), so the model is written once and takes the variant as
 * a parameter.
 */
module Variants {
  datatype Variant =
    | Root  // main.go
    | Web   // cmd/web/main.go
}
