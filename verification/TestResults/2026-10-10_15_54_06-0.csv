TestResult.DisplayName,TestResult.Outcome,TestResult.Duration,TestResult.ResourceCount,RandomSeed
Text.ParseInt (well-formedness),Failed,00:00:00.4634409,576821,0
Text.ParseIntToString (correctness),Passed,00:00:00.4000731,573773,0
