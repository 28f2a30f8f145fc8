/** Pieces appended one by one are appended as a whole. */
module Strings {
  lemma Glue2(o: string, a: string, b: string)
    ensures o + a + b == o + (a + b)
  {
  }

  lemma Glue3(o: string, a: string, b: string, c: string)
    ensures o + a + b + c == o + (a + b + c)
  {
    Glue2(o, a + b, c);
    Glue2(o, a, b);
  }

  lemma Glue5(o: string, a: string, b: string, c: string, d: string, e: string)
    ensures o + a + b + c + d + e == o + (a + b + c + d + e)
  {
    Glue3(o, a, b, c);
    Glue3(o, a + b + c, d, e);
  }

  /** And taken apart from the front. */
  lemma Unglue(a: string, b: string, c: string, d: string, e: string, rest: string)
    ensures a + b + c + d + e + rest == a + (b + (c + (d + (e + rest))))
  {
    Glue2(a + b + c + d, e, rest);
    Glue2(a + b + c, d, e + rest);
    Glue2(a + b, c, d + (e + rest));
    Glue2(a, b, c + (d + (e + rest)));
  }
}
