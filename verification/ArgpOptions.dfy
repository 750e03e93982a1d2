/** The tables a program hands to argp: options and the tree of argps. */
module ArgpOptions {
  import opened FirstSeen
  import opened Wrappers

  /** A char, by its value. */
  type Byte = int

  /** A C string up to its terminating NUL. */
  type CStr = seq<Byte>

  /** struct argp_option; `hasArg` says that the arg field is non-NULL. */
  datatype Opt = Opt(name: Option<CStr>, key: int, hasArg: bool, argOptional: bool, hidden: bool,
                     alias: bool, docOnly: bool, noUsage: bool, group: int)

  /** struct argp.  `options` is None for a NULL table and otherwise the
      table up to its end marker. */
  datatype Argp = Argp(options: Option<seq<Opt>>, hasParser: bool, children: seq<Child>)

  /** struct argp_child; `header` says that the header field is non-NULL. */
  datatype Child = Child(argp: Argp, header: bool, group: int)

  /** isprint in the C locale. */
  predicate IsPrintable(c: int) {
    32 <= c <= 126
  }

  /** __option_is_short. */
  predicate IsShort(o: Opt) {
    !o.docOnly && 0 < o.key <= 255 && IsPrintable(o.key)
  }

  /** The option table of an argp, a NULL table read as an empty one. */
  function Table(a: Argp): seq<Opt> {
    if a.options.Some? then a.options.value else []
  }

  /** Every argp of the tree, each before its children. */
  function Nodes(a: Argp): (ns: seq<Argp>)
    ensures ns != [] && ns[0] == a
    decreases a, |a.children| + 1
  {
    NodesUpTo(a, |a.children|)
  }

  /** The argp and the trees of its first `i` children. */
  function NodesUpTo(a: Argp, i: nat): (ns: seq<Argp>)
    requires i <= |a.children|
    ensures ns != [] && ns[0] == a
    decreases a, i
  {
    if i == 0 then [a] else NodesUpTo(a, i - 1) + Nodes(a.children[i - 1].argp)
  }

  /** The short keys of a run of options, as the help list reads them. */
  function ShortKeys(opts: seq<Opt>): (ks: seq<Byte>)
    ensures 0 !in ks
  {
    if opts == [] then []
    else (if IsShort(opts[0]) then [opts[0].key] else []) + ShortKeys(opts[1..])
  }

  lemma {:induction false} ShortKeysAppend(a: seq<Opt>, b: seq<Opt>)
    ensures ShortKeys(a + b) == ShortKeys(a) + ShortKeys(b)
  {
    if a == [] {
      assert a + b == b;
    } else {
      ShortKeysAppend(a[1..], b);
      assert (a + b)[0] == a[0] && (a + b)[1..] == a[1..] + b;
      Assoc(if IsShort(a[0]) then [a[0].key] else [], ShortKeys(a[1..]), ShortKeys(b));
    }
  }
}
