/** The renderings of the MySQL functions that `rewrite_mysql_functions` rewrites call by call. */
module SqlFunctions {
  import opened Text
  import opened Calls

  /** POSITION takes the needle first: the two arguments change places. */
  function RenderInstr(args: seq<string>): Option<string> {
    if |args| != 2 then None
    else Some("POSITION(CAST(" + (Trim(args[1]) + (" AS text) IN CAST(" + (Trim(args[0]) + " AS text))"))))
  }

  /** A negative count is rendered on the reversed string; the sign itself is dropped. */
  function RenderSubstringIndex(args: seq<string>): Option<string> {
    if |args| != 3 then None
    else
      var (source, delimiter, count) := (Trim(args[0]), Trim(args[1]), Trim(args[2]));
      if StartsWith(count, '-') then
        Some("reverse(split_part(reverse(CAST(" + (source + (" AS text)), reverse(CAST(" +
             (delimiter + (" AS text)), " + (count[1..] + "))"))))))
      else
        Some("split_part(CAST(" + (source + (" AS text), CAST(" +
             (delimiter + (" AS text), " + (count + ")"))))))
  }

  function RenderIf(args: seq<string>): Option<string> {
    if |args| != 3 then None
    else
      Some("(CASE WHEN " + (Trim(args[0]) + (" THEN " + (Trim(args[1]) + (" ELSE " + (Trim(args[2]) + " END)"))))))
  }

  /** The three passes in the order of `rewrite_mysql_functions`. A pass that changes nothing is discarded there,
      which is the same, because it then returns its input. */
  function RewriteFunctions(sql: string): string {
    var a := Rewritten("INSTR", RenderInstr, sql).0;
    var b := Rewritten("SUBSTRING_INDEX", RenderSubstringIndex, a).0;
    Rewritten("IF", RenderIf, b).0
  }

  /** This part of `rewrite_mysql_functions`, with one warning flag for each pass. */
  method RewriteMySqlFunctions(sql: string) returns (out: string, instr: bool, substringIndex: bool, conditional: bool)
    ensures out == RewriteFunctions(sql)
    ensures !instr && !substringIndex && !conditional ==> out == sql
  {
    hide Rewritten;
    out := sql;
    var rewritten: string;
    rewritten, instr := RewriteFunctionCalls(out, "INSTR", RenderInstr);
    if instr {
      out := rewritten;
    }
    rewritten, substringIndex := RewriteFunctionCalls(out, "SUBSTRING_INDEX", RenderSubstringIndex);
    if substringIndex {
      out := rewritten;
    }
    rewritten, conditional := RewriteFunctionCalls(out, "IF", RenderIf);
    if conditional {
      out := rewritten;
    }
  }
}
