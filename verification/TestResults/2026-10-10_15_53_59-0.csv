TestResult.DisplayName,TestResult.Outcome,TestResult.Duration,TestResult.ResourceCount,RandomSeed
Text.ParseInt (well-formedness),Failed,00:00:01.2338028,1270401,0
Text.ParseIntToString (correctness),Passed,00:00:00.7393426,754452,0
