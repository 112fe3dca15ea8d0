// The kinds of scope a policy can be charged to (src/types.rs).
module Scopes {

  datatype ScopeKind = Database | Role | Application | Tenant | Composite
}
